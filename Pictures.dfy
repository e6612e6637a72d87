/**
 * Picture records, the tag index derived from a catalogue, and the tag filter rule
 * of the gallery view.
 */
module Pictures {

  /** A picture as the gallery keeps it; `id` is its position in the last snapshot. */
  datatype Picture = Picture(id: int, name: string, tags: seq<string>, file: string)

  /** The id-less payload that creating a picture sends. */
  datatype PictureData = PictureData(name: string, tags: seq<string>, file: string)

  /** A picture without its id: what `delete result.id` leaves of a dialog result. */
  function DataOf(p: Picture): (r: PictureData)
    ensures Picture(p.id, r.name, r.tags, r.file) == p
  {
    PictureData(p.name, p.tags, p.file)
  }

  /** The snapshot with each picture's id overwritten by its position. */
  function Renumbered(pics: seq<Picture>): (r: seq<Picture>)
    ensures |r| == |pics|
    ensures forall i :: 0 <= i < |r| ==> r[i].id == i && DataOf(r[i]) == DataOf(pics[i])
  {
    seq(|pics|, i requires 0 <= i < |pics| => pics[i].(id := i))
  }

  /** Every picture's id equals its position. */
  ghost predicate Positional(pics: seq<Picture>) {
    forall i :: 0 <= i < |pics| ==> pics[i].id == i
  }

  /** A sequence that agrees with the snapshot up to ids equal to positions is its renumbering. */
  lemma RenumberedByLoop(pics: seq<Picture>, snapshot: seq<Picture>)
    requires |pics| == |snapshot|
    requires forall k :: 0 <= k < |pics| ==> pics[k] == snapshot[k].(id := k)
    ensures pics == Renumbered(snapshot) && Positional(pics)
    ensures TagsOf(pics) == TagsOf(snapshot)
  {
    assert pics == Renumbered(snapshot);
    TagsOfRenumbered(snapshot);
  }

  /** The distinct tags of one picture. */
  function TagSet(tags: seq<string>): set<string> {
    set t | t in tags
  }

  /** The union of the tags of all pictures of a catalogue. */
  function TagsOf(pics: seq<Picture>): (r: set<string>)
    ensures forall t :: t in r <==> exists i :: 0 <= i < |pics| && t in pics[i].tags
    decreases |pics|
  {
    if |pics| == 0 then {}
    else
      var init := pics[..|pics| - 1];
      assert forall i :: 0 <= i < |init| ==> init[i] == pics[i];
      TagsOf(init) + TagSet(pics[|pics| - 1].tags)
  }

  /** Extending a prefix of the catalogue by one picture adds that picture's tags. */
  lemma TagsOfSnoc(pics: seq<Picture>, i: nat)
    requires i < |pics|
    ensures TagsOf(pics[..i + 1]) == TagsOf(pics[..i]) + TagSet(pics[i].tags)
  {
    assert pics[..i + 1][..i] == pics[..i];
  }

  lemma TagSetSnoc(tags: seq<string>, j: nat)
    requires j < |tags|
    ensures TagSet(tags[..j + 1]) == TagSet(tags[..j]) + {tags[j]}
  {
    assert tags[..j + 1] == tags[..j] + [tags[j]];
  }

  /** Renumbering does not change which tags a catalogue uses. */
  lemma TagsOfRenumbered(pics: seq<Picture>)
    ensures TagsOf(Renumbered(pics)) == TagsOf(pics)
  {
    var r := Renumbered(pics);
    forall t | t in TagsOf(pics) ensures t in TagsOf(r) {
      var i :| 0 <= i < |pics| && t in pics[i].tags;
      assert DataOf(r[i]) == DataOf(pics[i]);
    }
    forall t | t in TagsOf(r) ensures t in TagsOf(pics) {
      var i :| 0 <= i < |r| && t in r[i].tags;
      assert DataOf(r[i]) == DataOf(pics[i]);
    }
  }

  /** The number of entries of `tags` that are members of `filter`, duplicates counted each time. */
  function CountIn(tags: seq<string>, filter: set<string>): (n: nat)
    ensures n <= |tags|
    ensures n == 0 <==> forall i :: 0 <= i < |tags| ==> tags[i] !in filter
    decreases |tags|
  {
    if |tags| == 0 then 0
    else (if tags[0] in filter then 1 else 0) + CountIn(tags[1..], filter)
  }

  /**
   * The rule the gallery applies: keep a picture when the count of its tags that
   * are in the filter equals the size of the filter.
   */
  predicate Keeps(p: Picture, filter: set<string>): (b: bool)
    ensures filter == {} ==> b
    ensures b ==> |filter| <= |p.tags|
    ensures b && filter != {} ==> exists i :: 0 <= i < |p.tags| && p.tags[i] in filter
  {
    CountIn(p.tags, filter) == |filter|
  }

  /** The pictures of the catalogue that the filter keeps, in catalogue order. */
  function FilterView(pics: seq<Picture>, filter: set<string>): (r: seq<Picture>)
    ensures |r| <= |pics|
    ensures IsSubsequence(r, pics)
    ensures forall p :: p in r <==> p in pics && Keeps(p, filter)
    decreases |pics|
  {
    if |pics| == 0 then []
    else
      var rest := FilterView(pics[1..], filter);
      if Keeps(pics[0], filter) then [pics[0]] + rest else rest
  }

  /**
   * The view keeps every occurrence of a kept picture: each picture occurs in it
   * as often as in the catalogue when the rule keeps it, and not at all otherwise.
   */
  lemma {:induction false} FilterViewMultiplicity(pics: seq<Picture>, filter: set<string>, p: Picture)
    ensures multiset(FilterView(pics, filter))[p] == if Keeps(p, filter) then multiset(pics)[p] else 0
    decreases |pics|
  {
    if |pics| > 0 {
      MultisetCons(pics);
      FilterViewMultiplicity(pics[1..], filter, p);
      var rest := FilterView(pics[1..], filter);
      if Keeps(pics[0], filter) {
        assert FilterView(pics, filter) == [pics[0]] + rest;
        assert multiset([pics[0]] + rest) == multiset{pics[0]} + multiset(rest);
      }
    }
  }

  lemma MultisetCons(pics: seq<Picture>)
    requires |pics| > 0
    ensures multiset(pics) == multiset{pics[0]} + multiset(pics[1..])
  {
    assert pics == [pics[0]] + pics[1..];
  }

  /** `sub` is obtained from `s` by deleting elements, keeping the order of the rest. */
  ghost predicate IsSubsequence(sub: seq<Picture>, s: seq<Picture>)
    decreases |s|
  {
    if |sub| == 0 then true
    else if |s| == 0 then false
    else if sub[0] == s[0] then IsSubsequence(sub[1..], s[1..])
    else IsSubsequence(sub, s[1..])
  }

  /** An empty filter keeps the whole catalogue. */
  lemma {:induction false} FilterViewEmpty(pics: seq<Picture>)
    ensures FilterView(pics, {}) == pics
    decreases |pics|
  {
    if |pics| > 0 {
      FilterViewEmpty(pics[1..]);
      assert Keeps(pics[0], {});
      assert [pics[0]] + pics[1..] == pics;
    }
  }

  predicate NoDuplicates(tags: seq<string>) {
    forall i, j :: 0 <= i < j < |tags| ==> tags[i] != tags[j]
  }

  /** With distinct tags, the count is the size of the intersection with the filter. */
  lemma {:induction false} CountInDistinct(tags: seq<string>, filter: set<string>)
    requires NoDuplicates(tags)
    ensures CountIn(tags, filter) == |TagSet(tags) * filter|
    decreases |tags|
  {
    if |tags| > 0 {
      NoDuplicatesTail(tags);
      CountInDistinct(tags[1..], filter);
      TagSetCons(tags);
      IntersectAddOne(tags[0], TagSet(tags[1..]), filter);
    }
  }

  lemma NoDuplicatesTail(tags: seq<string>)
    requires |tags| > 0 && NoDuplicates(tags)
    ensures NoDuplicates(tags[1..]) && tags[0] !in TagSet(tags[1..])
  {
    var rest := tags[1..];
    forall i, j | 0 <= i < j < |rest| ensures rest[i] != rest[j] {
      assert rest[i] == tags[i + 1] && rest[j] == tags[j + 1];
    }
    forall j | 0 <= j < |rest| ensures rest[j] != tags[0] {
      assert rest[j] == tags[j + 1];
    }
  }

  lemma IntersectAddOne(x: string, a: set<string>, filter: set<string>)
    requires x !in a
    ensures |(a + {x}) * filter| == |a * filter| + (if x in filter then 1 else 0)
  {
    if x in filter {
      assert (a + {x}) * filter == a * filter + {x};
    } else {
      assert (a + {x}) * filter == a * filter;
    }
  }

  lemma TagSetCons(tags: seq<string>)
    requires |tags| > 0
    ensures TagSet(tags) == TagSet(tags[1..]) + {tags[0]}
  {
    assert tags == [tags[0]] + tags[1..];
  }

  /** A subset as large as its superset is the superset itself. */
  lemma SubsetOfEqualSize(a: set<string>, b: set<string>)
    requires a <= b && |a| == |b|
    ensures a == b
  {
    if a != b {
      var x :| x in b && x !in a;
      assert a <= b - {x};
      assert |a| <= |b - {x}| by { SubsetSize(a, b - {x}); }
    }
  }

  lemma SubsetSize(a: set<string>, b: set<string>)
    requires a <= b
    ensures |a| <= |b|
  {
    assert b == a + (b - a);
  }

  /**
   * When a picture's tags are distinct, the count rule is exactly "every filter
   * tag is among the picture's tags".
   */
  lemma KeepsIffSuperset(p: Picture, filter: set<string>)
    requires NoDuplicates(p.tags)
    ensures Keeps(p, filter) <==> filter <= TagSet(p.tags)
  {
    CountInDistinct(p.tags, filter);
    var common := TagSet(p.tags) * filter;
    if filter <= TagSet(p.tags) {
      assert common == filter;
    }
    if Keeps(p, filter) {
      SubsetOfEqualSize(common, filter);
    }
  }

  /** With a repeated tag the count rule keeps a picture that lacks a filter tag. */
  lemma DuplicateTagKeepsWithoutSuperset()
    ensures var p := Picture(0, "A", ["x", "x"], "a.png");
            Keeps(p, {"x", "y"}) && !({"x", "y"} <= TagSet(p.tags))
  {
    var p := Picture(0, "A", ["x", "x"], "a.png");
    assert "x" != "y" by { assert "x"[0] != "y"[0]; }
    assert |{"x", "y"}| == 2;
    assert "y" !in TagSet(p.tags);
  }

  /** With a repeated tag the count rule drops a picture that has every filter tag. */
  lemma DuplicateTagDropsSuperset()
    ensures var p := Picture(0, "A", ["x", "x"], "a.png");
            !Keeps(p, {"x"}) && {"x"} <= TagSet(p.tags)
  {
    var p := Picture(0, "A", ["x", "x"], "a.png");
    assert CountIn(p.tags, {"x"}) == 2;
    assert "x" in p.tags;
  }

  /** One picture tagged x and y: the filter {x} keeps it, the filter {x, z} does not. */
  lemma FilterScenario()
    ensures var a0 := Picture(0, "A", ["x", "y"], "a.png");
            FilterView([a0], {"x"}) == [a0] && FilterView([a0], {"x", "z"}) == []
  {
    var a0 := Picture(0, "A", ["x", "y"], "a.png");
    assert "x" != "y" && "x" != "z" && "y" != "z" by {
      assert "x"[0] != "y"[0] && "x"[0] != "z"[0] && "y"[0] != "z"[0];
    }
    assert [a0][1..] == [];
    assert a0.tags[1..] == ["y"] && ["y"][1..] == [];
    assert CountIn(a0.tags, {"x"}) == 1;
    assert CountIn(a0.tags, {"x", "z"}) == 1;
    assert |{"x", "z"}| == 2;
  }
}
