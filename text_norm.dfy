/** The text key used to match classifier records to tasks:
    `s.lower().strip()`, restricted to ASCII. */
module TextNorm {

  predicate IsUpper(c: char) {
    'A' <= c <= 'Z'
  }

  /** ASCII characters for which Python's `str.isspace` holds:
      tab, line feed, vertical tab, form feed, carriage return (9-13),
      the four separators 28-31, and space (32). */
  predicate IsSpace(c: char) {
    (9 <= c as int <= 13) || (28 <= c as int <= 32)
  }

  /** ASCII lower-casing of one character. */
  function LowerChar(c: char): (d: char)
    ensures !IsUpper(d)
    ensures IsUpper(c) ==> d as int == c as int + 32
    ensures !IsUpper(c) ==> d == c
  {
    if IsUpper(c) then (c as int + 32) as char else c
  }

  /** `str.lower()` on ASCII. */
  function Lower(s: string): (r: string)
    ensures |r| == |s|
  {
    seq(|s|, k requires 0 <= k < |s| => LowerChar(s[k]))
  }

  /** Lower-casing leaves no upper-case letter, keeps every other character
      in place, and moves each upper-case letter to its lower-case one. */
  lemma LowerSpec(s: string)
    ensures forall k :: 0 <= k < |s| ==> !IsUpper(Lower(s)[k])
    ensures forall k :: 0 <= k < |s| && !IsUpper(s[k]) ==> Lower(s)[k] == s[k]
    ensures forall k :: 0 <= k < |s| && IsUpper(s[k]) ==> Lower(s)[k] as int == s[k] as int + 32
  {
  }

  /** The number of whitespace characters at the front of `s`. */
  function LeadingSpace(s: string): (n: nat)
    ensures n <= |s|
    decreases |s|
  {
    if s != [] && IsSpace(s[0]) then 1 + LeadingSpace(s[1..]) else 0
  }

  /** `LeadingSpace` counts exactly the whitespace run at the front. */
  lemma {:induction false} LeadingSpaceSpec(s: string)
    ensures forall k :: 0 <= k < LeadingSpace(s) ==> IsSpace(s[k])
    ensures LeadingSpace(s) == |s| || !IsSpace(s[LeadingSpace(s)])
    decreases |s|
  {
    if s != [] && IsSpace(s[0]) {
      LeadingSpaceSpec(s[1..]);
      assert forall k :: 0 < k < |s| ==> s[k] == s[1..][k - 1];
    }
  }

  /** The number of whitespace characters at the back of `s`. */
  function TrailingSpace(s: string): (n: nat)
    ensures n <= |s|
    decreases |s|
  {
    if s != [] && IsSpace(s[|s| - 1]) then 1 + TrailingSpace(s[..|s| - 1]) else 0
  }

  /** `TrailingSpace` counts exactly the whitespace run at the back. */
  lemma {:induction false} TrailingSpaceSpec(s: string)
    ensures forall k :: |s| - TrailingSpace(s) <= k < |s| ==> IsSpace(s[k])
    ensures TrailingSpace(s) == |s| || !IsSpace(s[|s| - 1 - TrailingSpace(s)])
    decreases |s|
  {
    if s != [] && IsSpace(s[|s| - 1]) {
      TrailingSpaceSpec(s[..|s| - 1]);
    }
  }

  /** `str.strip()` on ASCII whitespace. */
  function Strip(s: string): (r: string)
    ensures |r| <= |s|
  {
    var t := s[LeadingSpace(s)..];
    t[..|t| - TrailingSpace(t)]
  }

  /** Stripping keeps the contiguous part of `s` that starts at its first
      non-whitespace character and ends at its last one: only whitespace is
      removed, and none is left at either end. */
  lemma StripSpec(s: string)
    ensures LeadingSpace(s) + |Strip(s)| <= |s|
    ensures Strip(s) == s[LeadingSpace(s)..LeadingSpace(s) + |Strip(s)|]
    ensures forall k :: 0 <= k < |s| && !IsSpace(s[k]) ==>
      LeadingSpace(s) <= k < LeadingSpace(s) + |Strip(s)|
    ensures Strip(s) == [] || (!IsSpace(Strip(s)[0]) && !IsSpace(Strip(s)[|Strip(s)| - 1]))
  {
    var t := s[LeadingSpace(s)..];
    LeadingSpaceSpec(s);
    TrailingSpaceSpec(t);
  }

  /** The matching key `s.lower().strip()`. */
  function Normalize(s: string): string {
    Strip(Lower(s))
  }

  /** The key has no upper-case letter and no whitespace at either end. */
  lemma NormalizeSpec(s: string)
    ensures forall k :: 0 <= k < |Normalize(s)| ==> !IsUpper(Normalize(s)[k])
    ensures Normalize(s) == [] || (!IsSpace(Normalize(s)[0]) && !IsSpace(Normalize(s)[|Normalize(s)| - 1]))
  {
    var l := Lower(s);
    LowerSpec(s);
    StripSpec(l);
    var r := Strip(l);
    forall k | 0 <= k < |r| ensures !IsUpper(r[k]) {
      assert r[k] == l[LeadingSpace(l) + k];
    }
  }

  /** Lower-casing a string that has no upper-case letter changes nothing. */
  lemma LowerOfLowered(s: string)
    requires forall k :: 0 <= k < |s| ==> !IsUpper(s[k])
    ensures Lower(s) == s
  {
  }

  /** Stripping a string with no whitespace at either end changes nothing. */
  lemma StripOfStripped(s: string)
    requires s == [] || (!IsSpace(s[0]) && !IsSpace(s[|s| - 1]))
    ensures Strip(s) == s
  {
  }

  /** Normalising twice is normalising once: the key is a canonical form,
      so comparing keys is an equivalence on task texts. */
  lemma NormalizeIdempotent(s: string)
    ensures Normalize(Normalize(s)) == Normalize(s)
  {
    var n := Normalize(s);
    NormalizeSpec(s);
    LowerOfLowered(n);
    StripOfStripped(n);
  }

  /** A case- and padding-insensitive match: "  Buy milk " and "buy milk"
      share a key. */
  lemma NormalizeExample()
    ensures Normalize("  Buy milk ") == Normalize("buy milk") == "buy milk"
  {
    var padded, plain := "  Buy milk ", "buy milk";
    var lowered := "  buy milk ";
    assert Lower(padded) == lowered by {
      assert forall k :: 0 <= k < |padded| ==> Lower(padded)[k] == lowered[k];
    }
    LowerOfLowered(plain);
    StripOfStripped(plain);
    var r := Strip(lowered);
    StripSpec(lowered);
    assert LeadingSpace(lowered) == 2 by {
      assert IsSpace(lowered[0]) && IsSpace(lowered[1]) && !IsSpace(lowered[2]);
    }
    assert |r| == 8 by {
      assert !IsSpace(lowered[9]) && IsSpace(lowered[10]);
    }
    assert r == lowered[2..10];
  }
}
