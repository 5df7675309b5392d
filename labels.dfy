/** Post-processing of the zero-shot classifier's answer
    (server.js lines 181-196): each label `Category: Value` is reduced to
    the piece after its first `": "`, and at most five tags are kept, in
    the classifier's order. */
module Labels {
  import opened Wrappers
  import opened Strings

  const CategorySeparator := ": "
  const MaxTags := 5

  /** The fixed candidate labels sent to the classifier, each a category
      and a value joined by `": "`. */
  const CandidateCategories: seq<string> := [
    "Material", "Cor", "Cor", "Funcionalidade", "Funcionalidade", "Tamanho", "Tamanho", "Marca"
  ]
  const CandidateValues: seq<string> := [
    "Bolsa de Couro",
    "Bolsa Preta",
    "Bolsa Marrom",
    "Bolsa de Ombro",
    "Bolsa para o Dia a Dia",
    "Bolsa Grande",
    "Bolsa Compacta",
    "EUPHORE"
  ]
  const CandidateLabels: seq<string> :=
    seq(8, k requires 0 <= k < 8 => CandidateCategories[k] + CategorySeparator + CandidateValues[k])

  /** The label has a category prefix, so `split(': ')[1]` is defined. */
  predicate HasCategory(lbl: string)
  {
    IndexOf(lbl, CategorySeparator).Some?
  }

  /** `lbl.split(': ')[1]`.  Without a `": "` the piece does not exist and
      JavaScript yields `undefined`, which the later `join` writes as the
      empty string; the empty tag stands for it here. */
  function StripCategory(lbl: string): (tag: string)
    ensures !HasCategory(lbl) ==> tag == []
  {
    if HasCategory(lbl) then Split(lbl, CategorySeparator)[1] else []
  }

  /** The tag is exactly the text between the first `": "` of the label and
      the next one, or the end of the label. */
  lemma StripCategorySegment(lbl: string)
    requires HasCategory(lbl)
    ensures exists category, rest ::
              lbl == category + CategorySeparator + StripCategory(lbl) + rest &&
              !Contains(category, CategorySeparator) &&
              !Contains(StripCategory(lbl), CategorySeparator) &&
              (rest == [] || CategorySeparator <= rest)
  {
    var category, rest := SecondPiece(lbl, CategorySeparator);
    assert StripCategory(lbl) == Split(lbl, CategorySeparator)[1];
  }

  /** Every label among the first five has a category prefix, so no tag is
      `undefined`. */
  predicate Categorized(labels: seq<string>)
  {
    forall i :: 0 <= i < |labels| && i < MaxTags ==> HasCategory(labels[i])
  }

  /** `labels.map(label => label.split(': ')[1]).slice(0, 5)`. */
  function TopTags(labels: seq<string>): (tags: seq<string>)
    ensures |tags| == (if |labels| < MaxTags then |labels| else MaxTags)
    ensures forall i :: 0 <= i < |tags| ==> tags[i] == StripCategory(labels[i])
  {
    var n := if |labels| < MaxTags then |labels| else MaxTags;
    seq(n, i requires 0 <= i < n => StripCategory(labels[i]))
  }

  /** Every candidate label has a category prefix, so any answer made of
      candidate labels is categorized. */
  lemma CandidatesCategorized(labels: seq<string>)
    requires forall l :: l in labels ==> l in CandidateLabels
    ensures Categorized(labels)
  {
    forall k | 0 <= k < 8 ensures HasCategory(CandidateLabels[k]) {
      CandidateStripsToValue(k);
    }
    forall i | 0 <= i < |labels| && i < MaxTags ensures HasCategory(labels[i]) {
      assert labels[i] in labels;
    }
  }

  /** Two classifier labels give their two values, in order. */
  lemma TopTagsOfTwo(c0: string, v0: string, c1: string, v1: string)
    requires ':' !in c0 && ':' !in v0 && ':' !in c1 && ':' !in v1
    ensures Categorized([c0 + CategorySeparator + v0, c1 + CategorySeparator + v1])
    ensures TopTags([c0 + CategorySeparator + v0, c1 + CategorySeparator + v1]) == [v0, v1]
  {
    StripAt(c0, v0);
    StripAt(c1, v1);
  }

  /** No candidate category or value holds a `:`, and no value a `,`. */
  lemma CandidatePiecesClean(k: nat)
    requires k < 8
    ensures ':' !in CandidateCategories[k]
    ensures ':' !in CandidateValues[k] && ',' !in CandidateValues[k] && CandidateValues[k] != []
  {
  }

  /** Each candidate label strips to the value paired with it. */
  lemma CandidateStripsToValue(k: nat)
    requires k < 8
    ensures HasCategory(CandidateLabels[k])
    ensures StripCategory(CandidateLabels[k]) == CandidateValues[k]
  {
    CandidatePiecesClean(k);
    StripAt(CandidateCategories[k], CandidateValues[k]);
  }

  // This example takes its literals as parameters pinned by
  // `requires`: literals written in the body are unfolded eagerly by the
  // verifier, which makes its proof run out of resources.
  lemma ExampleTopTags(labels: seq<string>)
    requires labels == ["Marca: EUPHORE", "Cor: Bolsa Preta"]
    ensures TopTags(labels) == ["EUPHORE", "Bolsa Preta"]
  {
    var c0, v0 := labels[0][..5], labels[0][7..];
    var c1, v1 := labels[1][..3], labels[1][5..];
    SeparatorAt(labels[0], 5);
    SeparatorAt(labels[1], 3);
    assert labels == [c0 + CategorySeparator + v0, c1 + CategorySeparator + v1];
    TopTagsOfTwo(c0, v0, c1, v1);
  }

  /** A category and a value, neither containing `": "`, joined by `": "`
      strip back to the value. */
  lemma StripAt(category: string, value: string)
    requires ':' !in category && ':' !in value
    ensures HasCategory(category + CategorySeparator + value)
    ensures StripCategory(category + CategorySeparator + value) == value
  {
    var lbl := category + CategorySeparator + value;
    NoFirstChar(category, CategorySeparator);
    NoFirstChar(value, CategorySeparator);
    FreshHeadUnbordered(CategorySeparator);
    FirstAfterPiece(category, CategorySeparator, value);
    SplitAt(lbl, CategorySeparator, |category|);
    assert lbl[..|category|] == category && lbl[|category| + 2..] == value;
    IndexOfLeftmost(value, CategorySeparator);
    assert Split(value, CategorySeparator) == [value];
  }

  /** A label whose `": "` sits at `i`. */
  lemma SeparatorAt(lbl: string, i: nat)
    requires i + 2 <= |lbl| && lbl[i] == ':' && lbl[i + 1] == ' '
    ensures lbl == lbl[..i] + CategorySeparator + lbl[i + 2..]
  {
    assert lbl[i..i + 2] == CategorySeparator;
    assert lbl == lbl[..i] + lbl[i..i + 2] + lbl[i + 2..];
  }

  /** Each candidate label strips to a non-empty value without `", "`. */
  lemma CandidateTag(l: string)
    requires l in CandidateLabels
    ensures HasCategory(l)
    ensures StripCategory(l) != [] && !Contains(StripCategory(l), ", ")
  {
    var k :| 0 <= k < |CandidateLabels| && CandidateLabels[k] == l;
    CandidateStripsToValue(k);
    CandidatePiecesClean(k);
    NoFirstChar(CandidateValues[k], ", ");
  }
}
