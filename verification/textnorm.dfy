/** The text normalizer `normalizar_texto`: lower case, and underscores and
    hyphens turned into spaces. */
module TextNorm {

  import opened StringOps
  import opened Cells

  predicate IsSeparator(c: char) {
    c == ' ' || c == '_' || c == '-'
  }

  /** Lower-case text without underscores or hyphens. */
  predicate IsNormalized(s: string) {
    forall i :: 0 <= i < |s| ==> !IsUpper(s[i]) && s[i] != '_' && s[i] != '-'
  }

  /** `normalizar_texto` on text: every character is replaced by one
      character, underscores and hyphens by a space, upper-case letters by
      their lower-case form, and the rest kept. */
  function NormalizeText(s: string): (r: string)
    ensures |r| == |s|
    ensures IsNormalized(r)
    ensures forall i :: 0 <= i < |s| ==>
      r[i] == (if s[i] == '_' || s[i] == '-' then ' ' else Lower(s[i]))
  {
    ReplaceChar(ReplaceChar(LowerText(s), '_', ' '), '-', ' ')
  }

  /** Normalizing twice is normalizing once. */
  lemma NormalizeIdempotent(s: string)
    ensures NormalizeText(NormalizeText(s)) == NormalizeText(s)
  {
    var r := NormalizeText(s);
    assert forall i :: 0 <= i < |r| ==> NormalizeText(r)[i] == r[i];
  }

  /** The normalized texts are exactly the fixed points of the normalizer. */
  lemma NormalizeFixedPoints(s: string)
    ensures NormalizeText(s) == s <==> IsNormalized(s)
  {
    if IsNormalized(s) {
      assert forall i :: 0 <= i < |s| ==> NormalizeText(s)[i] == s[i];
    }
  }

  /** Two characters the normalizer does not tell apart: equal up to ASCII
      case, or both word separators. */
  predicate SameUpToCase(c: char, d: char) {
    Lower(c) == Lower(d) || (IsSeparator(c) && IsSeparator(d))
  }

  predicate Variants(s: string, t: string) {
    |s| == |t| && forall i :: 0 <= i < |s| ==> SameUpToCase(s[i], t[i])
  }

  lemma NormalizeCharEqual(c: char, d: char)
    ensures ((if c == '_' || c == '-' then ' ' else Lower(c)) == (if d == '_' || d == '-' then ' ' else Lower(d)))
      <==> SameUpToCase(c, d)
  {
  }

  /** Two texts normalize to the same text exactly when they differ only
      in ASCII case and in the choice among space, `_` and `-`. */
  lemma NormalizeIdentifies(s: string, t: string)
    ensures NormalizeText(s) == NormalizeText(t) <==> Variants(s, t)
  {
    var ns, nt := NormalizeText(s), NormalizeText(t);
    forall i | 0 <= i < |s| && i < |t|
      ensures ns[i] == nt[i] <==> SameUpToCase(s[i], t[i])
    {
      NormalizeCharEqual(s[i], t[i]);
    }
    if Variants(s, t) {
      assert forall i :: 0 <= i < |s| ==> ns[i] == nt[i];
    }
  }

  /** Two spellings of the same category in the source data collapse. */
  lemma CaseVariantsCollapse()
    ensures NormalizeText("Hombre") == NormalizeText("HOMBRE") == "hombre"
  {
    var lower := "hombre";
    assert IsNormalized(lower) by {
      assert forall i :: 0 <= i < |lower| ==> 'a' <= lower[i] <= 'z';
    }
    NormalizeFixedPoints(lower);
    assert Variants(lower, "Hombre");
    NormalizeIdentifies(lower, "Hombre");
    assert Variants(lower, "HOMBRE");
    NormalizeIdentifies(lower, "HOMBRE");
  }

  /** `normalizar_texto` on a cell: text is normalized, anything else is
      returned as it is. */
  function NormalizeCell(c: Cell): (r: Cell)
    ensures !c.Text? ==> r == c
    ensures c.Text? ==> r.Text? && IsNormalized(r.text) && |r.text| == |c.text|
    ensures c.Text? ==> r == Text(NormalizeText(c.text))
  {
    match c
    case Text(s) => Text(NormalizeText(s))
    case _ => c
  }

  lemma NormalizeCellIdempotent(c: Cell)
    ensures NormalizeCell(NormalizeCell(c)) == NormalizeCell(c)
  {
    if c.Text? {
      NormalizeIdempotent(c.text);
    }
  }
}
