/**
 * String helpers shared by the model: ASCII whitespace trimming, ASCII lower-casing,
 * splitting on maximal whitespace runs, joining with single spaces, clamped substrings
 * and decimal rendering of integers (template literals).
 */
module Text {

  /** The ASCII characters that `trim()` removes and that the pattern `\s` matches. */
  predicate IsSpace(c: char) {
    c == ' ' || c == '\t' || c == '\n' || c == '\r' || c == '\U{B}' || c == '\U{C}'
  }

  predicate NoSpace(s: string) {
    forall i :: 0 <= i < |s| ==> !IsSpace(s[i])
  }

  /** A string with no whitespace at either end, as `trim()` leaves it. */
  predicate Trimmed(s: string) {
    s == [] || (!IsSpace(s[0]) && !IsSpace(s[|s| - 1]))
  }

  function Min(a: int, b: int): int { if a <= b then a else b }

  function Max(a: int, b: int): int { if a >= b then a else b }

  /** Drops leading whitespace. */
  function TrimStart(s: string): (r: string)
    ensures |r| <= |s| && r == s[|s| - |r|..]
    ensures r == [] || !IsSpace(r[0])
    ensures forall i :: 0 <= i < |s| - |r| ==> IsSpace(s[i])
    ensures s != [] && IsSpace(s[0]) ==> |r| < |s|
  {
    if s != [] && IsSpace(s[0]) then TrimStart(s[1..]) else s
  }

  /** Drops trailing whitespace. */
  function TrimEnd(s: string): (r: string)
    ensures |r| <= |s| && r == s[..|r|]
    ensures r == [] || !IsSpace(r[|r| - 1])
    ensures forall i :: |r| <= i < |s| ==> IsSpace(s[i])
  {
    if s != [] && IsSpace(s[|s| - 1]) then TrimEnd(s[..|s| - 1]) else s
  }

  /** `s.trim()` over ASCII whitespace. */
  function Trim(s: string): (r: string)
    ensures Trimmed(r) && |r| <= |s|
  {
    TrimEnd(TrimStart(s))
  }

  /** Trimming removes only whitespace: every other character survives it. */
  lemma TrimKeeps(s: string, i: nat)
    requires i < |s| && !IsSpace(s[i])
    ensures s[i] in Trim(s)
  {
    var t := TrimStart(s);
    var k := |s| - |t|;
    assert k <= i;
    assert t[i - k] == s[i];
    var r := TrimEnd(t);
    assert i - k < |r|;
    assert r[i - k] == s[i];
  }

  /** A string that is already trimmed is left alone by `trim()`. */
  lemma TrimOfTrimmed(s: string)
    requires Trimmed(s)
    ensures Trim(s) == s
  {
  }

  /** `toLowerCase()` on one character, over ASCII. */
  function Lower(c: char): char {
    if 'A' <= c <= 'Z' then (c as int + 32) as char else c
  }

  /** Lower-casing neither creates nor removes whitespace. */
  lemma LowerSpace(c: char)
    ensures IsSpace(Lower(c)) == IsSpace(c)
  {
  }

  /** Lower-casing a lower-case character changes nothing. */
  lemma LowerLower(c: char)
    ensures Lower(Lower(c)) == Lower(c)
  {
  }

  /** `s.toLowerCase()` over ASCII. */
  function ToLower(s: string): (r: string)
    ensures |r| == |s|
    ensures forall i :: 0 <= i < |s| ==> r[i] == Lower(s[i])
  {
    seq(|s|, i requires 0 <= i < |s| => Lower(s[i]))
  }

  /** `s.trim().toLowerCase()`, the comparison key used for answers. */
  function TrimLower(s: string): string {
    ToLower(Trim(s))
  }

  /** Lower-casing keeps a trimmed string trimmed. */
  lemma ToLowerTrimmed(t: string)
    requires Trimmed(t)
    ensures Trimmed(ToLower(t))
  {
    if t != [] {
      LowerSpace(t[0]);
      LowerSpace(t[|t| - 1]);
    }
  }

  /** Lower-casing twice is lower-casing once. */
  lemma ToLowerTwice(t: string)
    ensures ToLower(ToLower(t)) == ToLower(t)
  {
    var l := ToLower(t);
    forall i | 0 <= i < |l|
      ensures ToLower(l)[i] == l[i]
    {
      LowerLower(t[i]);
    }
  }

  /** Trimming then lower-casing is idempotent: a normalised string is its own normal form. */
  lemma TrimLowerIdempotent(s: string)
    ensures TrimLower(TrimLower(s)) == TrimLower(s)
  {
    var t := Trim(s);
    var l := ToLower(t);
    ToLowerTrimmed(t);
    TrimOfTrimmed(l);
    ToLowerTwice(t);
  }

  /** `t.substring(a, b)` for `a <= b`: both ends are clamped to the length of `t`. */
  function Substring(t: string, a: nat, b: nat): (r: string)
    requires a <= b
  {
    t[Min(a, |t|)..Min(b, |t|)]
  }

  /** `c.repeat(n)`. */
  function Repeat(c: char, n: nat): (r: string)
    ensures |r| == n
    ensures forall i :: 0 <= i < n ==> r[i] == c
  {
    seq(n, _ => c)
  }

  // ---------------------------------------------------------------------------
  // Words: `split(/\s+/)` and joining with single spaces
  // ---------------------------------------------------------------------------

  /** Length of the longest whitespace-free prefix of `s`. */
  function WordEnd(s: string): (k: nat)
    ensures k <= |s|
    ensures forall i :: 0 <= i < k ==> !IsSpace(s[i])
    ensures k == |s| || IsSpace(s[k])
  {
    if s == [] || IsSpace(s[0]) then 0 else 1 + WordEnd(s[1..])
  }

  /**
   * `s.split(/\s+/)`: the pieces between maximal whitespace runs. A leading (trailing)
   * run yields an empty first (last) piece, and the empty string yields `[""]`.
   */
  function SplitWs(s: string): (parts: seq<string>)
    ensures |parts| >= 1
    decreases |s|
  {
    var k := WordEnd(s);
    if k == |s| then [s] else [s[..k]] + SplitWs(TrimStart(s[k..]))
  }

  /** `parts.join(' ')`. */
  function Join(parts: seq<string>): string {
    if |parts| == 0 then ""
    else if |parts| == 1 then parts[0]
    else parts[0] + " " + Join(parts[1..])
  }

  /** `parts.join('')`. */
  function Concat(parts: seq<string>): string {
    if parts == [] then "" else parts[0] + Concat(parts[1..])
  }

  /** `parts.map(p => p.length)`. */
  function Lengths(parts: seq<string>): (ls: seq<nat>)
    ensures |ls| == |parts|
    ensures forall i :: 0 <= i < |parts| ==> ls[i] == |parts[i]|
  {
    seq(|parts|, i requires 0 <= i < |parts| => |parts[i]|)
  }

  /** Sum of a sequence of naturals, taken from the back so that `Sum(xs[..i+1]) == Sum(xs[..i]) + xs[i]`. */
  function Sum(xs: seq<nat>): nat {
    if xs == [] then 0 else Sum(xs[..|xs| - 1]) + xs[|xs| - 1]
  }

  /** Peeling a sum from the front. */
  lemma {:induction false} SumFront(xs: seq<nat>)
    requires xs != []
    ensures Sum(xs) == xs[0] + Sum(xs[1..])
  {
    if |xs| > 1 {
      calc {
        Sum(xs);
        Sum(xs[..|xs| - 1]) + xs[|xs| - 1];
        { SumFront(xs[..|xs| - 1]); assert xs[..|xs| - 1][1..] == xs[1..][..|xs| - 2]; }
        xs[0] + Sum(xs[1..][..|xs| - 2]) + xs[1..][|xs| - 2];
        xs[0] + Sum(xs[1..]);
      }
    }
  }

  /** Joining one more part appends one space and the part. */
  lemma {:induction false} JoinSnoc(parts: seq<string>, p: string)
    ensures Join(parts + [p]) == if parts == [] then p else Join(parts) + " " + p
  {
    if |parts| > 1 {
      JoinSnoc(parts[1..], p);
      assert (parts + [p])[1..] == parts[1..] + [p];
    } else if |parts| == 1 {
      assert (parts + [p])[1..] == [p];
    }
  }

  /** Splitting a trimmed, non-empty string yields non-empty, whitespace-free words. */
  lemma {:induction false} SplitTrimmedWords(s: string)
    requires s != [] && Trimmed(s)
    ensures forall j :: 0 <= j < |SplitWs(s)| ==> SplitWs(s)[j] != [] && NoSpace(SplitWs(s)[j])
    decreases |s|
  {
    var k := WordEnd(s);
    if k < |s| {
      var rest := TrimStart(s[k..]);
      assert k < |s| - 1;
      assert rest != [] && rest[|rest| - 1] == s[|s| - 1];
      SplitTrimmedWords(rest);
    }
  }

  /** A whitespace-free word followed by nothing or by whitespace ends where the word ends. */
  lemma {:induction false} WordEndOf(w: string, t: string)
    requires NoSpace(w)
    requires t == [] || IsSpace(t[0])
    ensures WordEnd(w + t) == |w|
  {
    if w != [] {
      assert (w + t)[0] == w[0];
      assert (w + t)[1..] == w[1..] + t;
      WordEndOf(w[1..], t);
    } else {
      assert w + t == t;
    }
  }

  /** One step of the split: a word, one space, and a rest that starts with a non-space character. */
  lemma SplitStep(w: string, rest: string)
    requires NoSpace(w)
    requires rest != [] && !IsSpace(rest[0])
    ensures SplitWs(w + (" " + rest)) == [w] + SplitWs(rest)
  {
    var s := w + (" " + rest);
    WordEndOf(w, " " + rest);
    assert s[..|w|] == w;
    assert s[|w|..] == " " + rest;
    assert (" " + rest)[1..] == rest;
    assert TrimStart(" " + rest) == rest;
  }

  /** Round trip: splitting the single-space join of whitespace-free words gives the words back. */
  lemma {:induction false} SplitJoin(parts: seq<string>)
    requires parts != []
    requires forall j :: 0 <= j < |parts| ==> parts[j] != [] && NoSpace(parts[j])
    ensures SplitWs(Join(parts)) == parts
  {
    if |parts| > 1 {
      var tail := parts[1..];
      assert tail[0] == parts[1];
      JoinHead(tail);
      assert Join(parts) == parts[0] + (" " + Join(tail));
      SplitStep(parts[0], Join(tail));
      SplitJoin(tail);
      assert parts == [parts[0]] + tail;
    } else {
      assert parts[0] + [] == parts[0];
      WordEndOf(parts[0], []);
    }
  }

  /** The join of non-empty words starts with the first word. */
  lemma {:induction false} JoinHead(parts: seq<string>)
    requires parts != [] && parts[0] != []
    ensures |Join(parts)| >= |parts[0]| && Join(parts)[..|parts[0]|] == parts[0]
  {
  }

  /** The length of a concatenation is the sum of the lengths. */
  lemma {:induction false} ConcatLength(parts: seq<string>)
    ensures |Concat(parts)| == Sum(Lengths(parts))
  {
    if parts != [] {
      ConcatLength(parts[1..]);
      SumFront(Lengths(parts));
      assert Lengths(parts)[1..] == Lengths(parts[1..]);
    }
  }

  /** Concatenating one more part appends it. */
  lemma {:induction false} ConcatSnoc(parts: seq<string>, p: string)
    ensures Concat(parts + [p]) == Concat(parts) + p
  {
    if parts != [] {
      ConcatSnoc(parts[1..], p);
      assert (parts + [p])[1..] == parts[1..] + [p];
    }
  }

  /** A single-space join is as long as its parts plus one separator between each neighbouring pair. */
  lemma {:induction false} JoinLength(parts: seq<string>)
    requires parts != []
    ensures |Join(parts)| == Sum(Lengths(parts)) + |parts| - 1
  {
    SumFront(Lengths(parts));
    assert Lengths(parts)[1..] == Lengths(parts[1..]);
    if |parts| > 1 {
      JoinLength(parts[1..]);
    } else {
      assert Lengths(parts)[1..] == [];
    }
  }

  /** Every character of a single-space join is a separator or a character of some part. */
  lemma {:induction false} JoinChars(parts: seq<string>, x: char)
    requires x in Join(parts)
    ensures x == ' ' || exists j :: 0 <= j < |parts| && x in parts[j]
  {
    if |parts| > 1 {
      if x !in parts[0] && x != ' ' {
        JoinChars(parts[1..], x);
        var j :| 0 <= j < |parts[1..]| && x in parts[1..][j];
        assert x in parts[j + 1];
      }
    }
  }

  /** Trimming keeps only characters of the original string. */
  lemma TrimChars(s: string, x: char)
    requires x in Trim(s)
    ensures x in s
  {
    var t := TrimStart(s);
    var r := TrimEnd(t);
    var i :| 0 <= i < |r| && r[i] == x;
    assert t[i] == x;
    assert s[|s| - |t| + i] == x;
  }

  // ---------------------------------------------------------------------------
  // Decimal rendering, as in template literals `${n}`
  // ---------------------------------------------------------------------------

  function DigitChar(d: nat): char
    requires d < 10
  {
    "0123456789"[d]
  }

  function DigitValue(c: char): nat {
    if '0' <= c <= '9' then c as int - '0' as int else 0
  }

  predicate IsDigit(c: char) { '0' <= c <= '9' }

  /** Decimal digits of a natural number, without leading zeros. */
  function NatToString(n: nat): (s: string)
    ensures s != [] && forall i :: 0 <= i < |s| ==> IsDigit(s[i])
    ensures |s| > 1 ==> s[0] != '0'
  {
    if n < 10 then [DigitChar(n)] else NatToString(n / 10) + [DigitChar(n % 10)]
  }

  /** `${i}` for an integer `i`. */
  function IntToString(i: int): string {
    if i < 0 then "-" + NatToString(-i) else NatToString(i)
  }

  /** Reads a string of decimal digits. */
  function ParseNat(s: string): nat {
    if s == [] then 0 else ParseNat(s[..|s| - 1]) * 10 + DigitValue(s[|s| - 1])
  }

  /** Decimal rendering is inverted by reading the digits back. */
  lemma {:induction false} ParseNatToString(n: nat)
    ensures ParseNat(NatToString(n)) == n
  {
    if n >= 10 {
      ParseNatToString(n / 10);
      var s := NatToString(n);
      assert s[..|s| - 1] == NatToString(n / 10);
    }
  }
}
