/**
 * The Python string operations the core relies on: `str.isspace`,
 * `str.strip`, `str.isdigit`, `str.replace(c, "")`, `" ".join`, decimal
 * formatting of a counter, and joining a directory with a file name.
 */
module Text {

  /** The characters for which Python 3's `str.isspace()` holds (what `strip()` removes). */
  predicate IsSpace(c: char) {
    || ('\t' <= c <= '\r') || ('\U{001C}' <= c <= ' ') || c == '\U{0085}' || c == '\U{00A0}'
    || c == '\U{1680}' || ('\U{2000}' <= c <= '\U{200A}') || ('\U{2028}' <= c <= '\U{2029}')
    || c == '\U{202F}' || c == '\U{205F}' || c == '\U{3000}'
  }

  /** The decimal digits the model recognises: ASCII, Arabic-Indic and extended (Persian) Arabic-Indic. */
  predicate IsDigit(c: char) {
    ('0' <= c <= '9') || ('\U{0660}' <= c <= '\U{0669}') || ('\U{06F0}' <= c <= '\U{06F9}')
  }

  predicate AllSpace(s: string) {
    forall i :: 0 <= i < |s| ==> IsSpace(s[i])
  }

  /** Every character is a digit: `str.isdigit()` once the string is known to be non-empty. */
  predicate AllDigits(s: string) {
    forall i :: 0 <= i < |s| ==> IsDigit(s[i])
  }

  /** Number of whitespace characters at the front of `s`. */
  function LeadingSpace(s: string): (n: nat)
    ensures n <= |s|
    ensures forall k :: 0 <= k < n ==> IsSpace(s[k])
    ensures n < |s| ==> !IsSpace(s[n])
    decreases |s|
  {
    if s != [] && IsSpace(s[0]) then 1 + LeadingSpace(s[1..]) else 0
  }

  /** Number of whitespace characters at the end of `s`. */
  function TrailingSpace(s: string): (n: nat)
    ensures n <= |s|
    ensures forall k :: |s| - n <= k < |s| ==> IsSpace(s[k])
    ensures n < |s| ==> !IsSpace(s[|s| - 1 - n])
    decreases |s|
  {
    if s != [] && IsSpace(s[|s| - 1]) then 1 + TrailingSpace(s[..|s| - 1]) else 0
  }

  /** Python's `str.strip()`: `s` without its leading and trailing whitespace. */
  function Strip(s: string): (r: string)
    ensures |r| <= |s|
    ensures r == [] <==> AllSpace(s)
    ensures r != [] ==> !IsSpace(r[0]) && !IsSpace(r[|r| - 1])
  {
    var a := LeadingSpace(s);
    var t := s[a..];
    var b := TrailingSpace(t);
    t[..|t| - b]
  }

  /** `strip()` keeps every non-space character and adds none. */
  lemma StripMembers(s: string)
    ensures forall c :: c in Strip(s) ==> c in s
    ensures forall k :: 0 <= k < |s| && !IsSpace(s[k]) ==> s[k] in Strip(s)
  {
    var a := LeadingSpace(s);
    var t := s[a..];
    var b := TrailingSpace(t);
    assert forall k :: 0 <= k < |s| && !IsSpace(s[k]) ==> a <= k && k - a < |t| - b && s[k] == t[..|t| - b][k - a];
  }

  /** Whitespace between two non-space characters survives `strip()`. */
  lemma StripKeepsInterior(s: string, i: nat, j: nat, k: nat)
    requires i < j < k < |s|
    requires !IsSpace(s[i]) && !IsSpace(s[k])
    ensures s[j] in Strip(s)
  {
    var a := LeadingSpace(s);
    var t := s[a..];
    var b := TrailingSpace(t);
    assert a <= i;
    assert k - a < |t| - b;
    assert s[j] == t[..|t| - b][j - a];
  }

  /** A string without outer whitespace is its own `strip()`. */
  lemma StripUnpadded(s: string)
    requires s == [] || (!IsSpace(s[0]) && !IsSpace(s[|s| - 1]))
    ensures Strip(s) == s
  {
    if s != [] {
      assert LeadingSpace(s) == 0;
      assert TrailingSpace(s) == 0;
    }
  }

  lemma StripIdempotent(s: string)
    ensures Strip(Strip(s)) == Strip(s)
  {
    StripUnpadded(Strip(s));
  }

  lemma {:induction false} LeadingSpaceOfPadded(p: string, r: string)
    requires AllSpace(p) && (r == [] || !IsSpace(r[0]))
    ensures LeadingSpace(p + r) == |p|
    decreases |p|
  {
    if p != [] {
      assert (p + r)[1..] == p[1..] + r;
      LeadingSpaceOfPadded(p[1..], r);
    } else {
      assert p + r == r;
    }
  }

  lemma {:induction false} TrailingSpaceOfPadded(r: string, q: string)
    requires AllSpace(q) && (r == [] || !IsSpace(r[|r| - 1]))
    ensures TrailingSpace(r + q) == |q|
    decreases |q|
  {
    if q != [] {
      assert (r + q)[..|r + q| - 1] == r + q[..|q| - 1];
      TrailingSpaceOfPadded(r, q[..|q| - 1]);
    } else {
      assert r + q == r;
    }
  }

  /** `strip()` removes exactly the whitespace around a string that has none at its ends. */
  lemma StripPadded(p: string, d: string, q: string)
    requires AllSpace(p) && AllSpace(q) && d != [] && !IsSpace(d[0]) && !IsSpace(d[|d| - 1])
    ensures Strip(p + d + q) == d
  {
    var s := p + d + q;
    assert s == p + (d + q);
    LeadingSpaceOfPadded(p, d + q);
    var t := s[|p|..];
    assert t == d + q;
    TrailingSpaceOfPadded(d, q);
    assert t[..|t| - |q|] == d;
  }

  /** Python's `s.replace(c, "")`: every occurrence of `c` removed. */
  function RemoveChar(s: string, c: char): (r: string)
    ensures |r| <= |s|
    decreases |s|
  {
    if s == [] then ""
    else (if s[0] == c then "" else [s[0]]) + RemoveChar(s[1..], c)
  }

  /** What `replace` keeps: every character but `c`, and nothing else. */
  lemma {:induction false} RemoveCharMembers(s: string, c: char)
    ensures forall d :: d in RemoveChar(s, c) <==> d in s && d != c
    decreases |s|
  {
    if s != [] {
      RemoveCharMembers(s[1..], c);
      assert s == [s[0]] + s[1..];
    }
  }

  /** The non-empty members of `parts`, in order (`p for p in parts if p`). */
  function NonEmpty(parts: seq<string>): (r: seq<string>)
    ensures |r| <= |parts|
    ensures forall p :: p in r <==> p in parts && p != ""
    decreases |parts|
  {
    if parts == [] then []
    else (if parts[0] == "" then [] else [parts[0]]) + NonEmpty(parts[1..])
  }

  /** Python's `sep.join(parts)`. */
  function Join(parts: seq<string>, sep: string): string
    decreases |parts|
  {
    if parts == [] then ""
    else if |parts| == 1 then parts[0]
    else parts[0] + sep + Join(parts[1..], sep)
  }

  /** Joined with whitespace, the result is blank exactly when every part is. */
  lemma {:induction false} JoinBlank(parts: seq<string>, sep: string)
    requires AllSpace(sep)
    ensures AllSpace(Join(parts, sep)) <==> forall p :: p in parts ==> AllSpace(p)
    decreases |parts|
  {
    if |parts| > 1 {
      JoinBlank(parts[1..], sep);
      var rest := Join(parts[1..], sep);
      var j := parts[0] + sep + rest;
      assert AllSpace(j) <==> AllSpace(parts[0]) && AllSpace(rest) by {
        if AllSpace(j) {
          assert forall k :: 0 <= k < |parts[0]| ==> j[k] == parts[0][k];
          assert forall k :: 0 <= k < |rest| ==> j[|parts[0]| + |sep| + k] == rest[k];
        }
      }
      assert forall p :: p in parts ==> p == parts[0] || p in parts[1..];
    }
  }

  function DigitChar(d: nat): (c: char)
    requires d < 10
    ensures '0' <= c <= '9'
  {
    ('0' as int + d) as char
  }

  /** Decimal representation of `n`, as Python's f-string writes a counter. */
  function NatToString(n: nat): (r: string)
    ensures |r| >= 1
    ensures forall i :: 0 <= i < |r| ==> '0' <= r[i] <= '9'
    ensures n >= 10 ==> |r| >= 2
  {
    if n < 10 then [DigitChar(n)] else NatToString(n / 10) + [DigitChar(n % 10)]
  }

  /** Different counters are written differently. */
  lemma {:induction false} NatToStringInjective(m: nat, n: nat)
    requires NatToString(m) == NatToString(n)
    ensures m == n
  {
    if m >= 10 && n >= 10 {
      var sm, sn := NatToString(m), NatToString(n);
      assert sm[|sm| - 1] == DigitChar(m % 10) && sn[|sn| - 1] == DigitChar(n % 10);
      assert sm[..|sm| - 1] == NatToString(m / 10);
      assert sn[..|sn| - 1] == NatToString(n / 10);
      NatToStringInjective(m / 10, n / 10);
    }
  }

  /** `str(Path(dir) / name)`, a directory joined with a file name. */
  function JoinPath(dir: string, name: string): string {
    dir + "/" + name
  }
}
