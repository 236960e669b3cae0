/** Canonical size labels, the size rank table used to order a line item's
    sizes, and the trim/casefold helpers that build merge and routing keys. */
module Canonical {
  import opened Text

  /** Synonyms of the canonical size vocabulary, keyed by the trimmed,
      upper-cased label. */
  const SizeSynonyms: map<string, string> := map[
    "XSM" := "XS", "X-SMALL" := "XS",
    "SM" := "S", "SMALL" := "S",
    "MED" := "M", "MEDIUM" := "M",
    "LG" := "L", "LARGE" := "L",
    "XLG" := "XL", "X-LARGE" := "XL",
    "XXL" := "2XL", "2X-LARGE" := "2XL",
    "XXXL" := "3XL", "3X-LARGE" := "3XL",
    "XXXXL" := "4XL", "4X-LARGE" := "4XL",
    "OS" := "ONE SIZE",
    "OSFA" := "ONE SIZE",
    "ONE SIZE FITS ALL" := "ONE SIZE",
    "QTY" := "qty"
  ]

  /** The generic single-quantity label used for non-apparel line items. */
  const QtyLabel: string := "qty"

  /** The vocabulary the synonym table maps onto. */
  const CanonicalSizes: set<string> :=
    {"XS", "S", "M", "L", "XL", "2XL", "3XL", "4XL", "ONE SIZE", QtyLabel}

  /** Canonical form of a scraped size label. The empty label is the
      single-quantity sentinel; every other label is stripped and upper-cased
      and then looked up in the synonym table. */
  function NormalizeSizeLabel(raw: string): string
  {
    if raw == "" then QtyLabel
    else
      var u := Upper(Trim(raw));
      if u in SizeSynonyms then SizeSynonyms[u] else u
  }

  /** Position of a canonical size in the emitted size list: the eight apparel
      sizes first, then any unknown label, then ONE SIZE, then the sentinel. */
  function SizeRank(size: string): int
  {
    if size == "XS" then 1
    else if size == "S" then 2
    else if size == "M" then 3
    else if size == "L" then 4
    else if size == "XL" then 5
    else if size == "2XL" then 6
    else if size == "3XL" then 7
    else if size == "4XL" then 8
    else if size == "ONE SIZE" then 100
    else if size == QtyLabel then 999
    else 50
  }

  /** Merge-key text: the string stripped of surrounding whitespace. */
  function NormalizeKeyText(s: string): (r: string)
    ensures IsTrimmed(r)
    ensures exists a :: StripAt(s, r, a)
    ensures |r| <= |s|
    ensures r == [] <==> forall i :: 0 <= i < |s| ==> IsSpace(s[i])
  {
    Trim(s)
  }

  /** Store routing key: stripped and case-folded. */
  function NormalizeStore(s: string): (r: string)
    ensures IsTrimmed(r)
    ensures Lower(r) == r
    ensures |r| == |Trim(s)|
    ensures forall i :: 0 <= i < |r| ==> r[i] == LowerChar(Trim(s)[i])
  {
    LowerKeepsTrimmed(Trim(s));
    LowerIdempotent(Trim(s));
    Lower(Trim(s))
  }

  /** Every synonym maps into the canonical vocabulary, and only QTY maps to
      the sentinel. */
  lemma SynonymTargets(u: string)
    requires u in SizeSynonyms
    ensures SizeSynonyms[u] in CanonicalSizes
    ensures SizeSynonyms[u] == QtyLabel <==> u == "QTY"
  {
  }

  /** Only the empty label and spellings of QTY become the sentinel; a label
      of spaces alone becomes the empty label instead. */
  lemma NormalizeToQty(raw: string)
    ensures NormalizeSizeLabel(raw) == QtyLabel <==> raw == "" || Upper(Trim(raw)) == "QTY"
    ensures NormalizeSizeLabel(raw) == "" <==> raw != "" && Trim(raw) == ""
  {
    if raw != "" {
      var u := Upper(Trim(raw));
      if u in SizeSynonyms {
        SynonymTargets(u);
      } else {
        UpperHasNoLower(Trim(raw));
        assert u != QtyLabel by {
          if u == QtyLabel {
            assert IsLower(u[0]);
          }
        }
      }
    }
  }

  /** A label that is not a synonym comes back stripped and upper-cased. */
  lemma NormalizeUnmapped(raw: string)
    requires raw != ""
    requires Upper(Trim(raw)) !in SizeSynonyms
    ensures NormalizeSizeLabel(raw) == Upper(Trim(raw))
    ensures IsTrimmed(NormalizeSizeLabel(raw))
  {
    UpperKeepsTrimmed(Trim(raw));
  }

  lemma SynonymKeyShape(k: string)
    requires k in SizeSynonyms
    ensures k != "" && IsTrimmed(k)
    ensures forall i :: 0 <= i < |k| ==> !IsLower(k[i])
  {
  }

  /** Every entry of the synonym table maps its spelling to its canonical
      size, whatever case and surrounding whitespace the spelling arrives
      with. */
  lemma NormalizeSynonym(raw: string, k: string)
    requires k in SizeSynonyms
    requires Upper(Trim(raw)) == Upper(Trim(k))
    ensures NormalizeSizeLabel(raw) == SizeSynonyms[k]
    ensures NormalizeSizeLabel(raw) in CanonicalSizes
  {
    SynonymKeyShape(k);
    UpperTrimFixed(k);
    SynonymTargets(k);
  }

  /** A stripped, upper-case label outside the synonym table is a fixed point
      of the normaliser. */
  lemma UnmappedIsFixed(c: string)
    requires c != "" && IsTrimmed(c) && c !in SizeSynonyms
    requires forall i :: 0 <= i < |c| ==> !IsLower(c[i])
    ensures NormalizeSizeLabel(c) == c
  {
    UpperTrimFixed(c);
  }

  lemma CanonicalNotSynonym(c: string)
    requires c in CanonicalSizes
    ensures c !in SizeSynonyms
  {
  }

  lemma CanonicalIsUpperTrimmed(c: string)
    requires c in CanonicalSizes && c != QtyLabel
    ensures c != "" && IsTrimmed(c)
    ensures forall i :: 0 <= i < |c| ==> !IsLower(c[i])
  {
  }

  lemma QtyIsFixed()
    ensures NormalizeSizeLabel(QtyLabel) == QtyLabel
  {
    assert Trim(QtyLabel) == QtyLabel by { TrimOfTrimmed(QtyLabel); }
    assert Upper(QtyLabel) == "QTY";
  }

  /** The canonical sizes are fixed points of the normaliser. */
  lemma CanonicalIsFixed(c: string)
    requires c in CanonicalSizes
    ensures NormalizeSizeLabel(c) == c
  {
    if c == QtyLabel {
      QtyIsFixed();
    } else {
      CanonicalNotSynonym(c);
      CanonicalIsUpperTrimmed(c);
      UnmappedIsFixed(c);
    }
  }

  /** Normalising twice is normalising once, for every label that is not
      blank. */
  lemma NormalizeIdempotent(raw: string)
    requires Trim(raw) != ""
    ensures NormalizeSizeLabel(NormalizeSizeLabel(raw)) == NormalizeSizeLabel(raw)
  {
    var n := NormalizeSizeLabel(raw);
    var u := Upper(Trim(raw));
    if u in SizeSynonyms {
      SynonymTargets(u);
      CanonicalIsFixed(n);
    } else {
      UpperKeepsTrimmed(Trim(raw));
      TrimOfTrimmed(u);
      UpperIdempotent(Trim(raw));
      assert Upper(Trim(n)) == u;
    }
  }

  /** The rank table orders XS < S < M < L < XL < 2XL < 3XL < 4XL, then any
      other label, then ONE SIZE, then the single-quantity sentinel. */
  lemma RankOrder(other: string)
    requires other !in {"XS", "S", "M", "L", "XL", "2XL", "3XL", "4XL", "ONE SIZE", QtyLabel}
    ensures SizeRank("XS") < SizeRank("S") < SizeRank("M") < SizeRank("L") < SizeRank("XL")
    ensures SizeRank("XL") < SizeRank("2XL") < SizeRank("3XL") < SizeRank("4XL")
    ensures SizeRank("4XL") < SizeRank(other) < SizeRank("ONE SIZE") < SizeRank(QtyLabel)
  {
  }

  /** Two stores share a key exactly when they agree after stripping and
      ignoring letter case: whitespace and case are all the key forgets. */
  lemma NormalizeStoreCaseInsensitive(a: string, b: string)
    ensures NormalizeStore(a) == NormalizeStore(b)
      <==> |Trim(a)| == |Trim(b)| && forall i :: 0 <= i < |Trim(a)| ==> LowerChar(Trim(a)[i]) == LowerChar(Trim(b)[i])
  {
    var ka, kb := NormalizeStore(a), NormalizeStore(b);
    if |Trim(a)| == |Trim(b)| && forall i :: 0 <= i < |Trim(a)| ==> LowerChar(Trim(a)[i]) == LowerChar(Trim(b)[i]) {
      assert forall i :: 0 <= i < |ka| ==> ka[i] == kb[i];
    }
  }
}
