/** The few Python `str` operations the scraper relies on: `strip()`,
    single-character `replace`, prefix slicing and deletion of one character. */
module Text {

  /** Python's `str.isspace` for one code point: the ASCII whitespace and
      separator controls plus the Unicode space separators. */
  predicate IsSpace(c: char) {
    var n := c as int;
    || (0x09 <= n <= 0x0D)
    || (0x1C <= n <= 0x20)
    || n == 0x85
    || n == 0xA0
    || n == 0x1680
    || (0x2000 <= n <= 0x200A)
    || n == 0x2028
    || n == 0x2029
    || n == 0x202F
    || n == 0x205F
    || n == 0x3000
  }

  /** Every character of `s` is blank for `ws`. */
  predicate AllBlank(s: string, ws: char -> bool) {
    forall i :: 0 <= i < |s| ==> ws(s[i])
  }

  /** Number of blank characters at the start of `s`. */
  function LeadingBlanks(s: string, ws: char -> bool): (n: nat)
    ensures n <= |s|
    ensures forall i :: 0 <= i < n ==> ws(s[i])
    ensures n < |s| ==> !ws(s[n])
  {
    if |s| > 0 && ws(s[0]) then 1 + LeadingBlanks(s[1..], ws) else 0
  }

  /** Number of blank characters at the end of `s`. */
  function TrailingBlanks(s: string, ws: char -> bool): (n: nat)
    ensures n <= |s|
    ensures forall i :: |s| - n <= i < |s| ==> ws(s[i])
    ensures n < |s| ==> !ws(s[|s| - 1 - n])
  {
    if |s| > 0 && ws(s[|s| - 1]) then 1 + TrailingBlanks(s[..|s| - 1], ws) else 0
  }

  /** `s[i..j]` is `s` with its surrounding blanks cut off: everything
      outside is blank and the kept part neither starts nor ends with one. */
  predicate TrimBounds(s: string, ws: char -> bool, i: nat, j: nat) {
    && i <= j <= |s|
    && AllBlank(s[..i], ws)
    && AllBlank(s[j..], ws)
    && (i < j ==> !ws(s[i]) && !ws(s[j - 1]))
  }

  /** `s` with the blanks of `ws` removed from both ends. */
  function Trim(s: string, ws: char -> bool): (r: string)
    ensures exists i: nat, j: nat :: TrimBounds(s, ws, i, j) && r == s[i..j]
    ensures r == [] || (!ws(r[0]) && !ws(r[|r| - 1]))
  {
    var lead := LeadingBlanks(s, ws);
    if lead == |s| then
      assert TrimBounds(s, ws, lead, lead);
      []
    else
      var trail := TrailingBlanks(s, ws);
      assert TrimBounds(s, ws, lead, |s| - trail);
      s[lead..|s| - trail]
  }

  /** The trimmed string is determined by the trimming property alone. */
  lemma TrimUnique(s: string, ws: char -> bool, i: nat, j: nat)
    requires TrimBounds(s, ws, i, j)
    ensures Trim(s, ws) == s[i..j]
  {
    var lead := LeadingBlanks(s, ws);
    if i == j {
      forall k | 0 <= k < |s| ensures ws(s[k]) {
        if k < i { assert s[..i][k] == s[k]; } else { assert s[j..][k - j] == s[k]; }
      }
    } else {
      assert lead == i;
      var trail := TrailingBlanks(s, ws);
      assert trail == |s| - j;
    }
  }

  /** A string with no blank at either end is its own trim. */
  lemma TrimNoOp(s: string, ws: char -> bool)
    requires s == [] || (!ws(s[0]) && !ws(s[|s| - 1]))
    ensures Trim(s, ws) == s
  {
    assert s[..0] == [] && s[|s|..] == [];
    assert TrimBounds(s, ws, 0, |s|);
    TrimUnique(s, ws, 0, |s|);
  }

  /** Python's `s.strip()` with no argument. */
  function Strip(s: string): (r: string)
    ensures exists i: nat, j: nat :: TrimBounds(s, IsSpace, i, j) && r == s[i..j]
    ensures r == [] || (!IsSpace(r[0]) && !IsSpace(r[|r| - 1]))
  {
    Trim(s, IsSpace)
  }

  /** Python's `s.replace(from, to)` for single characters. */
  function Replace(s: string, from: char, to: char): (r: string)
    ensures |r| == |s|
    ensures forall i :: 0 <= i < |s| && s[i] != from ==> r[i] == s[i]
    ensures forall i :: 0 <= i < |s| && s[i] == from ==> r[i] == to
  {
    seq(|s|, i requires 0 <= i < |s| => if s[i] == from then to else s[i])
  }

  /** Python's `s.replace(c, '')`: every occurrence of `c` deleted. */
  function Remove(s: string, c: char): (r: string)
    ensures c !in r
    ensures |r| <= |s|
    ensures c !in s ==> r == s
  {
    if |s| == 0 then [] else (if s[0] == c then [] else [s[0]]) + Remove(s[1..], c)
  }

  /** Deleting a character keeps only characters of the input. */
  lemma {:induction false} RemoveKeeps(s: string, c: char)
    ensures forall i :: 0 <= i < |Remove(s, c)| ==> Remove(s, c)[i] in s
  {
    if |s| > 0 {
      RemoveKeeps(s[1..], c);
      var rest := Remove(s[1..], c);
      assert forall i :: 0 <= i < |rest| ==> rest[i] in s by {
        forall i | 0 <= i < |rest| ensures rest[i] in s {
          assert rest[i] in s[1..];
        }
      }
    }
  }

  /** Deleting a character distributes over concatenation. */
  lemma {:induction false} RemoveConcat(a: string, b: string, c: char)
    ensures Remove(a + b, c) == Remove(a, c) + Remove(b, c)
  {
    if |a| == 0 {
      assert a + b == b;
    } else {
      assert (a + b)[0] == a[0];
      assert (a + b)[1..] == a[1..] + b;
      RemoveConcat(a[1..], b, c);
    }
  }

  /** Deleting a separator `c` between two parts, the second free of `c`. */
  lemma RemoveSeparator(a: string, b: string, c: char)
    requires c !in b
    ensures Remove(a + [c] + b, c) == Remove(a, c) + b
  {
    var ac := a + [c];
    RemoveConcat(ac, b, c);
    var x := Remove(ac, c);
    assert Remove(ac + b, c) == x + Remove(b, c);
    assert Remove(b, c) == b;
    RemoveConcat(a, [c], c);
    RemoveOnly(c);
    assert x == Remove(a, c) + [];
    assert Remove(a, c) + [] == Remove(a, c);
  }

  lemma RemoveOnly(c: char)
    ensures Remove([c], c) == []
  {
    assert [c][1..] == [];
  }

  /** Python's `s[:n]`. */
  function Take(s: string, n: nat): (r: string)
    ensures |r| <= n && |r| <= |s|
    ensures r == s[..|r|]
    ensures |r| < n ==> r == s
  {
    if n <= |s| then s[..n] else s
  }

}
