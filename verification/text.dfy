/**
  The small pieces of Python string handling the sensor code relies on:
  `str.strip`, `str.find`, `str.upper`, `os.path.basename`, and the integer
  grammar accepted by `int()` / `float()` for the probe's `t=` payload.
*/
module Text {
  import opened Wrappers

  /** ASCII whitespace removed by `str.strip()`. */
  predicate IsSpace(c: char) {
    c == ' ' || c == '\t' || c == '\n' || c == '\r' || c == '\U{000B}' || c == '\U{000C}'
  }

  predicate AllSpace(s: string) {
    forall i :: 0 <= i < |s| ==> IsSpace(s[i])
  }

  /** `s.rstrip()`. */
  function RStrip(s: string): string
    decreases |s|
  {
    if |s| > 0 && IsSpace(s[|s| - 1]) then RStrip(s[..|s| - 1]) else s
  }

  /** `s.lstrip()`. */
  function LStrip(s: string): string
    decreases |s|
  {
    if |s| > 0 && IsSpace(s[0]) then LStrip(s[1..]) else s
  }

  /** `s.strip()`. */
  function Strip(s: string): string {
    LStrip(RStrip(s))
  }

  /** `rstrip` removes exactly the trailing whitespace: the longest prefix not ending in whitespace. */
  lemma {:induction false} RStripSpec(s: string)
    ensures var r := RStrip(s);
      && |r| <= |s| && r == s[..|r|]
      && (|r| == 0 || !IsSpace(r[|r| - 1]))
      && forall i :: |r| <= i < |s| ==> IsSpace(s[i])
    decreases |s|
  {
    if |s| > 0 && IsSpace(s[|s| - 1]) {
      RStripSpec(s[..|s| - 1]);
    }
  }

  /** `lstrip` removes exactly the leading whitespace: the longest suffix not starting with whitespace. */
  lemma {:induction false} LStripSpec(s: string)
    ensures var r := LStrip(s);
      && |r| <= |s| && r == s[|s| - |r|..]
      && (|r| == 0 || !IsSpace(r[0]))
      && forall i :: 0 <= i < |s| - |r| ==> IsSpace(s[i])
    decreases |s|
  {
    if |s| > 0 && IsSpace(s[0]) {
      LStripSpec(s[1..]);
    }
  }

  /** Appending whitespace never changes what `strip()` returns. */
  lemma {:induction false} RStripAppendSpace(s: string, w: string)
    requires AllSpace(w)
    ensures RStrip(s + w) == RStrip(s)
    decreases |w|
  {
    if |w| > 0 {
      var w' := w[..|w| - 1];
      assert (s + w)[..|s + w| - 1] == s + w';
      RStripAppendSpace(s, w');
    } else {
      assert s + w == s;
    }
  }

  /** A string with non-blank ends, padded on the right with whitespace, strips back to itself. */
  lemma StripPadded(s: string, w: string)
    requires |s| > 0 && !IsSpace(s[0]) && !IsSpace(s[|s| - 1])
    requires AllSpace(w)
    ensures Strip(s + w) == s
  {
    RStripAppendSpace(s, w);
  }

  /** `s[j:j+len(pat)] == pat`. */
  predicate OccursAt(s: string, pat: string, j: int) {
    0 <= j && j + |pat| <= |s| && s[j..j + |pat|] == pat
  }

  /** `s.find(pat, from)`, with `None` for Python's `-1`. */
  function FindFrom(s: string, pat: string, from: nat): (r: Option<nat>)
    ensures r.Some? ==> from <= r.value && OccursAt(s, pat, r.value)
    ensures r.Some? ==> forall j :: from <= j < r.value ==> !OccursAt(s, pat, j)
    ensures r.None? ==> forall j :: from <= j ==> !OccursAt(s, pat, j)
    decreases |s| - from
  {
    if from + |pat| > |s| then None
    else if s[from..from + |pat|] == pat then Some(from)
    else FindFrom(s, pat, from + 1)
  }

  /** `s.find(pat)`: the first occurrence of `pat`, or `None`. */
  function Find(s: string, pat: string): (r: Option<nat>)
    ensures r.Some? ==> OccursAt(s, pat, r.value) && forall j :: 0 <= j < r.value ==> !OccursAt(s, pat, j)
    ensures r.None? <==> forall j :: 0 <= j ==> !OccursAt(s, pat, j)
  {
    FindFrom(s, pat, 0)
  }

  /** A pattern that is absent from `p` is first found right after `p` in `p + pat + q`. */
  lemma FindAfterPrefix(p: string, pat: string, q: string)
    requires |pat| > 0
    requires forall j :: 0 <= j ==> !OccursAt(p, pat, j)
    requires forall k :: 0 < k < |pat| ==> pat[..k] != pat[|pat| - k..]
    ensures Find(p + pat + q, pat) == Some(|p|)
  {
    var s := p + pat + q;
    assert OccursAt(s, pat, |p|) by {
      assert s[|p|..|p| + |pat|] == pat;
    }
    forall j | 0 <= j < |p|
      ensures !OccursAt(s, pat, j)
    {
      if OccursAt(s, pat, j) {
        if j + |pat| <= |p| {
          assert p[j..j + |pat|] == s[j..j + |pat|];
          assert OccursAt(p, pat, j);
        } else {
          OverlapIsBorder(s, pat, j, |p|);
          assert false;
        }
      }
    }
  }

  /** Two overlapping occurrences of `pat` make a proper prefix of `pat` equal to a suffix of it. */
  lemma OverlapIsBorder(s: string, pat: string, j: int, m: int)
    requires OccursAt(s, pat, j) && OccursAt(s, pat, m)
    requires j < m < j + |pat|
    ensures pat[..j + |pat| - m] == pat[m - j..]
  {
    var k := j + |pat| - m;
    forall i | 0 <= i < k
      ensures pat[..k][i] == pat[m - j..][i]
    {
      assert s[m..m + |pat|][i] == s[m + i];
      assert s[j..j + |pat|][m - j + i] == s[m + i];
    }
  }

  predicate IsDigit(c: char) {
    '0' <= c <= '9'
  }

  predicate AllDigits(s: string) {
    forall i :: 0 <= i < |s| ==> IsDigit(s[i])
  }

  function DigitValue(c: char): nat
    requires IsDigit(c)
  {
    c as int - '0' as int
  }

  function DigitChar(d: nat): (c: char)
    requires d < 10
    ensures IsDigit(c) && DigitValue(c) == d
  {
    ('0' as int + d) as char
  }

  /** The value of a run of decimal digits, most significant first. */
  function DigitsValue(s: string): nat
    requires AllDigits(s)
    decreases |s|
  {
    if |s| == 0 then 0 else DigitsValue(s[..|s| - 1]) * 10 + DigitValue(s[|s| - 1])
  }

  /** `str(n)` for a natural number. */
  function NatToDigits(n: nat): (r: string)
    ensures |r| > 0 && AllDigits(r)
    ensures |r| > 1 ==> r[0] != '0'
    decreases n
  {
    if n < 10 then [DigitChar(n)] else NatToDigits(n / 10) + [DigitChar(n % 10)]
  }

  lemma {:induction false} DigitsRoundTrip(n: nat)
    ensures DigitsValue(NatToDigits(n)) == n
    decreases n
  {
    if n >= 10 {
      var s := NatToDigits(n);
      assert s[..|s| - 1] == NatToDigits(n / 10);
      DigitsRoundTrip(n / 10);
    }
  }

  /** `str(n)` for any integer. */
  function IntToString(n: int): (r: string)
    ensures |r| > 0 && r[|r| - 1] != '-'
  {
    if n < 0 then "-" + NatToDigits(-n) else NatToDigits(n)
  }

  /**
    The integer literal grammar shared by Python's `int()` and `float()`:
    surrounding whitespace, an optional sign, one or more decimal digits.
    `None` stands for the `ValueError` they raise otherwise.
  */
  function ParseInt(s: string): Option<int> {
    var t := Strip(s);
    if |t| > 0 && (t[0] == '-' || t[0] == '+') then
      var d := t[1..];
      if |d| > 0 && AllDigits(d) then Some(if t[0] == '-' then -(DigitsValue(d) as int) else DigitsValue(d)) else None
    else if |t| > 0 && AllDigits(t) then Some(DigitsValue(t))
    else None
  }

  /** `int(str(n)) == n`, also when the text is followed by whitespace such as a newline. */
  lemma ParseIntRoundTrip(n: int, w: string)
    requires AllSpace(w)
    ensures ParseInt(IntToString(n) + w) == Some(n)
  {
    var s := IntToString(n);
    if n < 0 {
      DigitsRoundTrip(-n);
      assert s[1..] == NatToDigits(-n);
    } else {
      DigitsRoundTrip(n);
    }
    StripPadded(s, w);
  }

  /** `os.path.basename(p)` on a POSIX path: everything after the last `/`. */
  function Basename(p: string): string
    decreases |p|
  {
    if |p| == 0 || p[|p| - 1] == '/' then "" else Basename(p[..|p| - 1]) + [p[|p| - 1]]
  }

  /** The basename is a `/`-free suffix of the path, preceded by a `/` unless it is the whole path. */
  lemma {:induction false} BasenameSpec(p: string)
    ensures var r := Basename(p);
      && |r| <= |p| && r == p[|p| - |r|..]
      && (forall i :: 0 <= i < |r| ==> r[i] != '/')
      && (|r| < |p| ==> p[|p| - |r| - 1] == '/')
    decreases |p|
  {
    if |p| > 0 && p[|p| - 1] != '/' {
      BasenameSpec(p[..|p| - 1]);
    }
  }

  /** The last component of `<dir>/<name>` is `name` when `name` holds no `/`. */
  lemma {:induction false} BasenameAfterSlash(dir: string, name: string)
    requires forall i :: 0 <= i < |name| ==> name[i] != '/'
    ensures Basename(dir + "/" + name) == name
    decreases |name|
  {
    if |name| > 0 {
      var init := name[..|name| - 1];
      BasenameAfterSlash(dir, init);
      assert dir + "/" + name == (dir + "/" + init) + [name[|name| - 1]];
    }
  }

  /** `c.upper()` for ASCII letters; other characters are left as they are. */
  function UpperChar(c: char): char {
    if 'a' <= c <= 'z' then (c as int - 32) as char else c
  }

  /** `s.upper()`, character by character. */
  function Upper(s: string): (r: string)
    ensures |r| == |s|
  {
    seq(|s|, i requires 0 <= i < |s| => UpperChar(s[i]))
  }

  lemma UpperIdempotent(s: string)
    ensures Upper(Upper(s)) == Upper(s)
  {
  }
}
