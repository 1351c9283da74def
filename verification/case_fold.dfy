/** Case-insensitive comparison of names, as the ordinal-ignore-case string
    comparer does it. Only ASCII letters are folded: full Unicode case mapping
    is outside this model. Like the comparer, the fold maps to upper case. */
module CaseFold {

  /** The upper-case form of an ASCII lower-case letter; any other character unchanged. */
  function FoldChar(c: char): char
  {
    if 'a' <= c <= 'z' then (c as int - 32) as char else c
  }

  /** The name with every character folded. */
  function Fold(s: string): string
  {
    seq(|s|, k requires 0 <= k < |s| => FoldChar(s[k]))
  }

  /** Two names are the same column name when they agree after folding. */
  predicate EqualsIgnoreCase(a: string, b: string)
  {
    Fold(a) == Fold(b)
  }

  /** Equality ignoring case is the character-wise comparison of folded characters. */
  lemma EqualsIgnoreCaseCharwise(a: string, b: string)
    ensures EqualsIgnoreCase(a, b) <==>
              |a| == |b| && forall k :: 0 <= k < |a| ==> FoldChar(a[k]) == FoldChar(b[k])
  {
    if EqualsIgnoreCase(a, b) {
      assert |Fold(a)| == |a| && |Fold(b)| == |b|;
      forall k | 0 <= k < |a|
        ensures FoldChar(a[k]) == FoldChar(b[k])
      {
        assert Fold(a)[k] == Fold(b)[k];
      }
    }
    if |a| == |b| && forall k :: 0 <= k < |a| ==> FoldChar(a[k]) == FoldChar(b[k]) {
      assert forall k :: 0 <= k < |a| ==> Fold(a)[k] == Fold(b)[k];
    }
  }
}
