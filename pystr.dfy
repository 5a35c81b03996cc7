/**
 * The handful of Python `str` operations the extractor relies on, with
 * Python's semantics: `isspace`, `strip()`, `startswith`, `endswith`, `in`,
 * `replace`, `os.path.basename`, `' '.join`, `int()` and `str()` of an int.
 */
module PyStr {
  import opened Wrappers

  /** `c.isspace()`: the characters `str.strip()` removes. */
  predicate IsSpace(c: char) {
    var k := c as int;
    (9 <= k <= 13) || (28 <= k <= 32) || k == 0x85 || k == 0xA0 || k == 0x1680
    || (0x2000 <= k <= 0x200A) || k == 0x2028 || k == 0x2029 || k == 0x202F
    || k == 0x205F || k == 0x3000
  }

  /** Neither end of `s` is whitespace: what `strip()` guarantees of its result. */
  predicate Trimmed(s: string) {
    s == [] || (!IsSpace(s[0]) && !IsSpace(s[|s| - 1]))
  }

  /** `s.lstrip()` */
  function LStrip(s: string): string {
    if |s| > 0 && IsSpace(s[0]) then LStrip(s[1..]) else s
  }

  /** `lstrip()` drops the leading whitespace and nothing else. */
  lemma {:induction false} LStripSpec(s: string)
    ensures |LStrip(s)| <= |s| && LStrip(s) == s[|s| - |LStrip(s)|..]
    ensures forall i :: 0 <= i < |s| - |LStrip(s)| ==> IsSpace(s[i])
    ensures LStrip(s) != [] ==> !IsSpace(LStrip(s)[0])
  {
    if |s| > 0 && IsSpace(s[0]) {
      LStripSpec(s[1..]);
    }
  }

  /** `s.rstrip()` */
  function RStrip(s: string): string {
    if |s| > 0 && IsSpace(s[|s| - 1]) then RStrip(s[..|s| - 1]) else s
  }

  /** `rstrip()` drops the trailing whitespace and nothing else. */
  lemma {:induction false} RStripSpec(s: string)
    ensures |RStrip(s)| <= |s| && RStrip(s) == s[..|RStrip(s)|]
    ensures forall i :: |RStrip(s)| <= i < |s| ==> IsSpace(s[i])
    ensures RStrip(s) != [] ==> !IsSpace(RStrip(s)[|RStrip(s)| - 1])
  {
    if |s| > 0 && IsSpace(s[|s| - 1]) {
      RStripSpec(s[..|s| - 1]);
    }
  }

  /** `s.strip()` */
  function Strip(s: string): string {
    RStrip(LStrip(s))
  }

  /** `strip()` leaves no outer whitespace, and leaves a string without any alone. */
  lemma StripSpec(s: string)
    ensures |Strip(s)| <= |s| && Trimmed(Strip(s))
    ensures Trimmed(s) ==> Strip(s) == s
  {
    var l := LStrip(s);
    LStripSpec(s);
    RStripSpec(l);
    var r := RStrip(l);
    assert r != [] ==> r[0] == l[0];
  }

  /** `s.startswith(p)` */
  predicate StartsWith(s: string, p: string) {
    |p| <= |s| && s[..|p|] == p
  }

  /** `s.endswith(x)` */
  predicate EndsWith(s: string, x: string) {
    |x| <= |s| && s[|s| - |x|..] == x
  }

  /** `sub in s`: some position of `s` starts with `sub`. */
  predicate Contains(s: string, sub: string) {
    StartsWith(s, sub) || (s != [] && Contains(s[1..], sub))
  }

  /**
   * `s.replace(pat, rep)`: one left-to-right pass that replaces each
   * non-overlapping occurrence of `pat`. Text produced by a replacement is
   * not searched again.
   */
  function ReplaceAll(s: string, pat: string, rep: string): string
    requires pat != []
  {
    if |s| < |pat| then s
    else if s[..|pat|] == pat then rep + ReplaceAll(s[|pat|..], pat, rep)
    else [s[0]] + ReplaceAll(s[1..], pat, rep)
  }

  /** `os.path.basename(s)` on POSIX: the text after the last `/`. */
  function Basename(s: string): string {
    if s == [] || s[|s| - 1] == '/' then []
    else Basename(s[..|s| - 1]) + [s[|s| - 1]]
  }

  /** The basename is the part of the path after its last `/`, or all of it. */
  lemma {:induction false} BasenameSpec(s: string)
    ensures '/' !in Basename(s)
    ensures |Basename(s)| <= |s| && Basename(s) == s[|s| - |Basename(s)|..]
    ensures |Basename(s)| < |s| ==> s[|s| - |Basename(s)| - 1] == '/'
  {
    if s != [] && s[|s| - 1] != '/' {
      var init, c := s[..|s| - 1], s[|s| - 1];
      BasenameSpec(init);
      var b := Basename(init);
      assert Basename(s) == b + [c];
      var k := |init| - |b|;
      assert s[k..] == init[k..] + [c];
      if k > 0 {
        assert s[k - 1] == init[k - 1];
      }
    }
  }

  /** `' '.join(parts)` */
  function Join(parts: seq<string>): string {
    if |parts| == 0 then []
    else if |parts| == 1 then parts[0]
    else Join(parts[..|parts| - 1]) + " " + parts[|parts| - 1]
  }

  predicate IsDigit(c: char) {
    '0' <= c <= '9'
  }

  /** The value of `d` when it is a non-empty run of ASCII decimal digits, most significant first. */
  function DecimalValue(d: string): Option<nat> {
    if d == [] || !IsDigit(d[|d| - 1]) then None
    else
      var digit := d[|d| - 1] as int - '0' as int;
      if |d| == 1 then Some(digit)
      else
        match DecimalValue(d[..|d| - 1])
        case None => None
        case Some(v) => Some(v * 10 + digit)
  }

  /**
   * The control characters U+001C to U+001F. `isspace()` holds for them, but
   * `int()` skips only ASCII spaces, tabs and line breaks, and the non-ASCII
   * whitespace it first turns into ' ', so one of these anywhere makes it fail.
   */
  predicate IsSeparator(c: char) {
    0x1C <= c as int <= 0x1F
  }

  /**
   * `int(s)` for base 10: surrounding whitespace, an optional sign, then
   * ASCII digits; `None` stands for the `ValueError` Python raises otherwise.
   */
  function ParseInt(s: string): Option<int> {
    var u := Strip(s);
    if exists i :: 0 <= i < |s| && IsSeparator(s[i]) then None
    else if u != [] && (u[0] == '-' || u[0] == '+') then
      match DecimalValue(u[1..])
      case None => None
      case Some(v) => var w: int := v; Some(if u[0] == '-' then -w else w)
    else
      match DecimalValue(u)
      case None => None
      case Some(v) => Some(v)
  }

  /** `int()` rejects a string holding one of the separators, although `strip()` would remove it. */
  lemma ParseIntRejectsSeparator(s: string, i: int)
    requires 0 <= i < |s| && IsSeparator(s[i])
    ensures IsSpace(s[i])
    ensures ParseInt(s) == None
  {
  }

  /** The decimal digits of `n`, no leading zero. */
  function DecimalString(n: nat): string {
    var last := ['0' + (n % 10) as char];
    if n < 10 then last else DecimalString(n / 10) + last
  }

  /** `DecimalString` writes only digits, without a leading zero, and they read back as `n`. */
  lemma {:induction false} DecimalStringSpec(n: nat)
    ensures DecimalString(n) != [] && forall i :: 0 <= i < |DecimalString(n)| ==> IsDigit(DecimalString(n)[i])
    ensures DecimalValue(DecimalString(n)) == Some(n)
    ensures |DecimalString(n)| > 1 ==> DecimalString(n)[0] != '0'
  {
    if n >= 10 {
      DecimalStringSpec(n / 10);
      var r := DecimalString(n);
      assert r[..|r| - 1] == DecimalString(n / 10);
    }
  }

  /** `str(n)` for an int: a minus sign for negative values, then the digits. */
  function IntToString(n: int): string {
    if n < 0 then "-" + DecimalString(-n) else DecimalString(n)
  }

  /** `int(str(n)) == n`: the two conversions are inverse. */
  lemma ParseIntToString(n: int)
    ensures ParseInt(IntToString(n)) == Some(n)
    ensures forall i :: 0 <= i < |IntToString(n)| ==> IntToString(n)[i] == '-' || IsDigit(IntToString(n)[i])
  {
    var s := IntToString(n);
    DecimalStringSpec(if n < 0 then -n else n);
    var d := DecimalString(if n < 0 then -n else n);
    assert !IsSpace(d[|d| - 1]) && !IsSpace(d[0]);
    assert Trimmed(s);
    StripSpec(s);
    if n < 0 {
      assert s[1..] == d;
    }
  }

  /** Stripping a string that is already stripped changes nothing. */
  lemma StripIdempotent(s: string)
    ensures Strip(Strip(s)) == Strip(s)
  {
    StripSpec(s);
    StripSpec(Strip(s));
  }

  /** A string made only of whitespace strips to the empty string. */
  lemma {:induction false} StripAllSpace(s: string)
    requires forall i :: 0 <= i < |s| ==> IsSpace(s[i])
    ensures Strip(s) == []
  {
    if s != [] {
      assert LStrip(s) == LStrip(s[1..]);
      StripAllSpace(s[1..]);
    }
  }

  /** `replace` skips over a prefix whose characters cannot start `pat`. */
  lemma {:induction false} ReplaceSkips(d: string, rest: string, pat: string, rep: string)
    requires pat != []
    requires forall i :: 0 <= i < |d| ==> d[i] != pat[0]
    ensures ReplaceAll(d + rest, pat, rep) == d + ReplaceAll(rest, pat, rep)
  {
    var s := d + rest;
    if d == [] {
      assert s == rest;
    } else if |s| < |pat| {
      assert ReplaceAll(rest, pat, rep) == rest;
    } else {
      assert s[..|pat|][0] == d[0];
      assert s[1..] == d[1..] + rest;
      ReplaceSkips(d[1..], rest, pat, rep);
      AppendAssoc([d[0]], d[1..], ReplaceAll(rest, pat, rep));
      assert [d[0]] + d[1..] == d;
    }
  }

  /** `sub in p + sub`: a string ending in `sub` contains it. */
  lemma {:induction false} ContainsAtEnd(p: string, sub: string)
    ensures Contains(p + sub, sub)
  {
    if p == [] {
      assert p + sub == sub && sub[..|sub|] == sub;
    } else {
      ContainsAtEnd(p[1..], sub);
      assert (p + sub)[1..] == p[1..] + sub;
    }
  }

  /** `int()` of a non-empty run of ASCII digits is their decimal value. */
  lemma ParseDigits(d: string, v: nat)
    requires forall i :: 0 <= i < |d| ==> IsDigit(d[i])
    requires DecimalValue(d) == Some(v)
    ensures ParseInt(d) == Some(v)
  {
    assert Trimmed(d);
    StripSpec(d);
  }

  /** Concatenation is associative. */
  lemma AppendAssoc<T>(a: seq<T>, b: seq<T>, c: seq<T>)
    ensures (a + b) + c == a + (b + c)
  {
  }

  /** `replace` consumes a leading occurrence of `pat` whole. */
  lemma ReplaceLeading(pat: string, rest: string, rep: string)
    requires pat != []
    ensures ReplaceAll(pat + rest, pat, rep) == rep + ReplaceAll(rest, pat, rep)
  {
    var s := pat + rest;
    assert s[..|pat|] == pat && s[|pat|..] == rest;
  }

  /** The basename of a path whose last separator precedes `t` is `t`. */
  lemma {:induction false} BasenameAfterSlash(dir: string, t: string)
    requires dir != [] && dir[|dir| - 1] == '/'
    requires '/' !in t
    ensures Basename(dir + t) == t
  {
    if t == [] {
      assert (dir + t) == dir;
    } else {
      var s := dir + t;
      assert s[..|s| - 1] == dir + t[..|t| - 1];
      assert s[|s| - 1] == t[|t| - 1];
      assert t[|t| - 1] in t;
      BasenameAfterSlash(dir, t[..|t| - 1]);
      assert t[..|t| - 1] + [t[|t| - 1]] == t;
    }
  }

  /** `' '.join` of one more part appends a space and that part. */
  lemma JoinSnoc(parts: seq<string>, x: string)
    requires parts != []
    ensures Join(parts + [x]) == Join(parts) + " " + x
  {
    assert (parts + [x])[..|parts|] == parts;
  }

  /** A trimmed non-empty string with one space appended strips back to itself. */
  lemma StripSpaceSuffix(j: string)
    requires j != [] && Trimmed(j)
    ensures Strip(j + " ") == j
  {
    var s := j + " ";
    assert LStrip(s) == s by {
      assert s[0] == j[0];
    }
    assert s[..|s| - 1] == j;
    assert RStrip(s) == RStrip(j);
    assert RStrip(j) == j;
  }

  /** A join of non-empty trimmed parts starts and ends with a non-space. */
  lemma {:induction false} JoinTrimmed(parts: seq<string>)
    requires forall i :: 0 <= i < |parts| ==> parts[i] != [] && Trimmed(parts[i])
    ensures Trimmed(Join(parts))
    ensures parts != [] ==> Join(parts) != [] && Join(parts)[0] == parts[0][0]
  {
    if |parts| > 1 {
      var init := parts[..|parts| - 1];
      JoinTrimmed(init);
      assert init[0] == parts[0];
    }
  }
}
