/** The tag merge of the apply-tags route (server.js lines 219-227): the
    product's tag field is split on `", "` (an absent or empty field gives
    no tags), the generated tags are appended, duplicates are dropped the
    way a JavaScript `Set` drops them, and the result is joined with
    `", "`. */
module Tags {
  import opened Wrappers
  import opened Strings

  const TagSeparator := ", "

  predicate NoDuplicates<T(==,!new)>(xs: seq<T>)
  {
    forall i, j :: 0 <= i < j < |xs| ==> xs[i] != xs[j]
  }

  /** `product.tags ? product.tags.split(', ') : []`. */
  function ParseTags(field: Option<string>): (tags: seq<string>)
    ensures field.None? || field.value == [] ==> tags == []
    ensures field.Some? && field.value != [] ==> Join(tags, TagSeparator) == field.value
    ensures forall t :: t in tags ==> !Contains(t, TagSeparator)
  {
    if field.None? || field.value == [] then []
    else
      JoinSplit(field.value, TagSeparator);
      SplitPiecesFree(field.value, TagSeparator);
      Split(field.value, TagSeparator)
  }

  // ---------------------------------------------------------------------
  // Insertion-ordered de-duplication

  /** Adds the elements of `xs`, in order, to the insertion-ordered set
      `seen`, skipping those already present. */
  function DedupFrom<T(==,!new)>(seen: seq<T>, xs: seq<T>): (r: seq<T>)
    ensures NoDuplicates(seen) ==> NoDuplicates(r)
    ensures forall z :: z in r <==> z in seen || z in xs
    ensures |seen| <= |r| && r[..|seen|] == seen
    decreases |xs|
  {
    if xs == [] then seen
    else if xs[0] in seen then DedupFrom(seen, xs[1..])
    else DedupFrom(seen + [xs[0]], xs[1..])
  }

  /** `Array.from(new Set(xs))`. */
  function Dedup<T(==,!new)>(xs: seq<T>): (r: seq<T>)
    ensures NoDuplicates(r)
    ensures forall z :: z in r <==> z in xs
  {
    DedupFrom([], xs)
  }

  /** The elements of `xs` not in `excluded`, in their order. */
  function Without<T(==,!new)>(xs: seq<T>, excluded: seq<T>): (r: seq<T>)
    ensures |r| <= |xs|
    ensures forall z :: z in r <==> z in xs && z !in excluded
    decreases |xs|
  {
    if xs == [] then []
    else (if xs[0] in excluded then [] else [xs[0]]) + Without(xs[1..], excluded)
  }

  lemma {:induction false} WithoutSameMembers<T(!new)>(xs: seq<T>, a: seq<T>, b: seq<T>)
    requires forall z :: z in a <==> z in b
    ensures Without(xs, a) == Without(xs, b)
    decreases |xs|
  {
    if xs != [] {
      WithoutSameMembers(xs[1..], a, b);
    }
  }

  lemma {:induction false} WithoutTwice<T(!new)>(xs: seq<T>, excluded: seq<T>, x: T)
    ensures Without(Without(xs, excluded), [x]) == Without(xs, excluded + [x])
    decreases |xs|
  {
    if xs != [] {
      WithoutTwice(xs[1..], excluded, x);
      var head := if xs[0] in excluded then [] else [xs[0]];
      WithoutAppend(head, Without(xs[1..], excluded), [x]);
    }
  }

  lemma {:induction false} WithoutAppend<T(!new)>(a: seq<T>, b: seq<T>, excluded: seq<T>)
    ensures Without(a + b, excluded) == Without(a, excluded) + Without(b, excluded)
    decreases |a|
  {
    if a != [] {
      assert (a + b)[1..] == a[1..] + b;
      WithoutAppend(a[1..], b, excluded);
    } else {
      assert a + b == b;
    }
  }

  /** Excluding values that do not occur changes nothing. */
  lemma {:induction false} WithoutNone<T(!new)>(xs: seq<T>, excluded: seq<T>)
    requires forall z :: z in xs ==> z !in excluded
    ensures Without(xs, excluded) == xs
    decreases |xs|
  {
    if xs != [] {
      assert xs[0] in xs;
      WithoutNone(xs[1..], excluded);
      assert [xs[0]] + xs[1..] == xs;
    }
  }

  lemma {:induction false} DedupFromAppend<T(!new)>(seen: seq<T>, a: seq<T>, b: seq<T>)
    ensures DedupFrom(seen, a + b) == DedupFrom(DedupFrom(seen, a), b)
    decreases |a|
  {
    if a == [] {
      assert a + b == b;
    } else {
      assert (a + b)[1..] == a[1..] + b;
      DedupFromAppend(if a[0] in seen then seen else seen + [a[0]], a[1..], b);
    }
  }

  /** Continuing from `seen` keeps `seen` and then adds, de-duplicated, the
      elements not already in it. */
  lemma {:induction false} DedupFromSplit<T(!new)>(seen: seq<T>, xs: seq<T>)
    ensures DedupFrom(seen, xs) == seen + Dedup(Without(xs, seen))
    decreases |xs|, 1
  {
    if xs == [] {
      assert Dedup(Without(xs, seen)) == [];
      assert seen + [] == seen;
    } else if xs[0] in seen {
      var w := Without(xs[1..], seen);
      assert Without(xs, seen) == [] + w == w;
      assert DedupFrom(seen, xs) == DedupFrom(seen, xs[1..]);
      DedupFromSplit(seen, xs[1..]);
    } else {
      DedupFromSplitFresh(seen, xs);
    }
  }

  /** The case of `DedupFromSplit` where the first element is new. */
  lemma {:induction false} DedupFromSplitFresh<T(!new)>(seen: seq<T>, xs: seq<T>)
    requires xs != [] && xs[0] !in seen
    ensures DedupFrom(seen, xs) == seen + Dedup(Without(xs, seen))
    decreases |xs|, 0
  {
    var x, rest := xs[0], xs[1..];
    var w := Without(rest, seen);
    var d := Dedup(Without(w, [x]));
    assert Without(xs, seen) == [x] + w;
    assert Dedup([x] + w) == DedupFrom([x], w) by {
      assert ([x] + w)[0] == x && ([x] + w)[1..] == w;
      assert [] + [x] == [x];
    }
    calc {
      DedupFrom(seen, xs);
      DedupFrom(seen + [x], rest);
      { DedupFromSplit(seen + [x], rest); }
      (seen + [x]) + Dedup(Without(rest, seen + [x]));
      { WithoutTwice(rest, seen, x); }
      (seen + [x]) + d;
      seen + ([x] + d);
      { DedupFromSplit([x], w); }
      seen + DedupFrom([x], w);
      seen + Dedup(Without(xs, seen));
    }
  }

  /** `Set` union keeps the first list, de-duplicated, then the elements of
      the second list not in the first, de-duplicated, in their order. */
  lemma DedupAppend<T(!new)>(a: seq<T>, b: seq<T>)
    ensures Dedup(a + b) == Dedup(a) + Dedup(Without(b, a))
  {
    DedupFromAppend([], a, b);
    DedupFromSplit(Dedup(a), b);
    WithoutSameMembers(b, Dedup(a), a);
  }

  /** A list without duplicates is its own de-duplication. */
  lemma {:induction false} DedupUnique<T(!new)>(seen: seq<T>, xs: seq<T>)
    requires NoDuplicates(seen + xs)
    ensures DedupFrom(seen, xs) == seen + xs
    decreases |xs|
  {
    if xs == [] {
      assert seen + xs == seen;
    } else {
      assert xs[0] == (seen + xs)[|seen|];
      forall j | 0 <= j < |seen| ensures seen[j] != xs[0] {
        assert seen[j] == (seen + xs)[j];
      }
      assert seen + xs == (seen + [xs[0]]) + xs[1..];
      DedupUnique(seen + [xs[0]], xs[1..]);
    }
  }

  // ---------------------------------------------------------------------
  // The merge

  /** The tag list written back: no duplicates, exactly the existing and
      the generated tags. */
  function MergeTags(field: Option<string>, generated: seq<string>): (merged: seq<string>)
    ensures NoDuplicates(merged)
    ensures forall z :: z in merged <==> z in ParseTags(field) || z in generated
  {
    Dedup(ParseTags(field) + generated)
  }

  /** `allTags.join(', ')`. */
  function MergedField(field: Option<string>, generated: seq<string>): (r: string)
    ensures forall t :: t in ParseTags(field) || t in generated ==> Contains(r, t)
  {
    Join(MergeTags(field, generated), TagSeparator)
  }

  /** Existing tags come first, in first-occurrence order, then the
      generated tags that are not already present, in their order.  With no
      generated tags the merge only de-duplicates the existing tags. */
  lemma MergeOrder(field: Option<string>, generated: seq<string>)
    ensures MergeTags(field, generated)
         == Dedup(ParseTags(field)) + Dedup(Without(generated, ParseTags(field)))
    ensures generated == [] ==> MergeTags(field, generated) == Dedup(ParseTags(field))
  {
    DedupAppend(ParseTags(field), generated);
    assert ParseTags(field) + [] == ParseTags(field);
  }

  /** A written tag field reads back as the tags that were written, unless
      the only tag written was the empty one. */
  lemma ParseJoin(tags: seq<string>)
    requires tags != [[]]
    requires forall t :: t in tags ==> !Contains(t, TagSeparator)
    ensures ParseTags(Some(Join(tags, TagSeparator))) == tags
  {
    if tags != [] {
      var field := Join(tags, TagSeparator);
      if |tags| == 1 {
        assert tags[0] != [];
      } else {
        assert |field| >= |TagSeparator|;
      }
      FreshHeadUnbordered(TagSeparator);
      SplitJoin(tags, TagSeparator);
    }
  }

  /** Applying the same generated tags a second time writes the same tag
      field again. */
  lemma MergeIdempotent(field: Option<string>, generated: seq<string>)
    requires forall g :: g in generated ==> !Contains(g, TagSeparator)
    ensures MergedField(Some(MergedField(field, generated)), generated) == MergedField(field, generated)
  {
    var merged := MergeTags(field, generated);
    if merged == [[]] {
      assert MergedField(field, generated) == [];
      assert forall g :: g in generated ==> g == [] by {
        forall g | g in generated ensures g == [] {
          assert g in merged;
        }
      }
      assert ParseTags(Some([])) + generated == generated;
      DedupFromOneValue([], generated, []);
    } else {
      ParseJoin(merged);
      DedupAppend(merged, generated);
      assert Without(generated, merged) == [];
      DedupUnique([], merged);
      assert merged + [] == merged;
    }
  }

  /** De-duplicating copies of one value `v` gives `[]` or `[v]`. */
  lemma {:induction false} DedupFromOneValue<T(!new)>(seen: seq<T>, xs: seq<T>, v: T)
    requires seen == [] || seen == [v]
    requires forall z :: z in xs ==> z == v
    ensures DedupFrom(seen, xs) == [] || DedupFrom(seen, xs) == [v]
    decreases |xs|
  {
    if xs != [] {
      assert xs[0] in xs;
      assert forall z :: z in xs[1..] ==> z in xs;
      if xs[0] in seen {
        DedupFromOneValue(seen, xs[1..], v);
      } else {
        assert seen + [xs[0]] == [v];
        DedupFromOneValue([v], xs[1..], v);
      }
    }
  }

  /** A tag shorter than the separator cannot contain it. */
  lemma ShortTagFree(t: string)
    requires |t| < |TagSeparator|
    ensures !Contains(t, TagSeparator)
  {
  }

  /** De-duplicating `a, b, b, c, d` over distinct values drops the second
      `b` only. */
  lemma DedupOverlap<T(!new)>(a: T, b: T, c: T, d: T)
    requires a != b && a != c && a != d && b != c && b != d && c != d
    ensures Dedup([a, b] + [b, c, d]) == [a, b, c, d]
  {
    DedupPair(a, b);
    DedupPair(c, d);
    WithoutOverlap(a, b, c, d);
    DedupAppend([a, b], [b, c, d]);
    assert [a, b] + [c, d] == [a, b, c, d];
  }

  lemma DedupPair<T(!new)>(a: T, b: T)
    requires a != b
    ensures Dedup([a, b]) == [a, b]
  {
    assert [] + [a, b] == [a, b];
    DedupUnique([], [a, b]);
  }

  lemma WithoutOverlap<T(!new)>(a: T, b: T, c: T, d: T)
    requires a != c && a != d && b != c && b != d
    ensures Without([b, c, d], [a, b]) == [c, d]
  {
    var ex := [a, b];
    assert [b, c, d][1..] == [c, d] && [c, d][1..] == [d] && [d][1..] == [];
    assert c !in ex && d !in ex && b in ex;
    assert Without([d], ex) == [d] + Without([], ex) == [d];
    assert Without([c, d], ex) == [c] + Without([d], ex) == [c, d];
    assert Without([b, c, d], ex) == [] + Without([c, d], ex) == [c, d];
  }

  lemma JoinFour(a: string, b: string, c: string, d: string, sep: string)
    ensures Join([a, b, c, d], sep) == a + sep + b + sep + c + sep + d
  {
    var all := [a, b, c, d];
    assert all[1..] == [b, c, d] && all[1..][1..] == [c, d] && all[1..][1..][1..] == [d];
    assert Join([c, d], sep) == c + sep + d;
    assert Join([b, c, d], sep) == b + sep + (c + sep + d);
    assert Join(all, sep) == a + sep + (b + sep + (c + sep + d));
  }

  /** Existing tags `a, b` merged with `b, c, d` (all different one-letter
      tags) append only `c` and `d`. */
  lemma MergeOverlap(a: string, b: string, c: string, d: string)
    requires |a| == |b| == |c| == |d| == 1
    requires a != b && a != c && a != d && b != c && b != d && c != d
    ensures MergedField(Some(a + TagSeparator + b), [b, c, d])
         == a + TagSeparator + b + TagSeparator + c + TagSeparator + d
  {
    var sep := TagSeparator;
    var existing := [a, b];
    ShortTagFree(a);
    ShortTagFree(b);
    assert Join(existing, sep) == a + sep + b by {
      assert existing[1..] == [b];
    }
    ParseJoin(existing);
    DedupOverlap(a, b, c, d);
    JoinFour(a, b, c, d, sep);
  }

  // This example takes its literals as parameters pinned by
  // `requires`: literals written in the body are unfolded eagerly by the
  // verifier, which makes its proof run out of resources.
  /** `"A, B"` merged with `B`, `C`, `D` gives `"A, B, C, D"`. */
  lemma MergeExample(a: string, b: string, c: string, d: string)
    requires a == "A" && b == "B" && c == "C" && d == "D"
    ensures MergedField(Some(a + TagSeparator + b), [b, c, d])
         == a + TagSeparator + b + TagSeparator + c + TagSeparator + d
  {
    MergeOverlap(a, b, c, d);
  }
}
