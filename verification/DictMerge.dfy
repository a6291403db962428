/** The merge of tools/gen_server_spec_rs.py as it runs: nested dictionaries updated in
    place, a deep copy of the base document for every variant. */
module DictMerge {
  import opened DocMerge

  datatype Value = Scalar(text: string) | Ref(dict: Dict)

  class Dict {
    var items: map<string, Value>
    ghost var Repr: set<Dict>

    constructor ()
      ensures Valid() && fresh(Repr) && items == map[] && Repr == {this}
    {
      items := map[];
      Repr := {this};
    }

    /** The dictionaries below one key. */
    ghost function Below(k: string): set<Dict>
      reads this, if k in items && items[k].Ref? then {items[k].dict} else {}
    {
      if k in items && items[k].Ref? then items[k].dict.Repr else {}
    }

    /** A tree: each nested dictionary belongs to one key, and none to itself. */
    ghost predicate Valid()
      reads this, Repr
      ensures Valid() ==> this in Repr
      decreases Repr
    {
      && this in Repr
      && (forall k | k in items && items[k].Ref? ::
            && items[k].dict in Repr && items[k].dict.Repr <= Repr - {this}
            && items[k].dict.Valid())
      && (forall j, k | j in items && k in items && j != k && items[j].Ref? && items[k].Ref? ::
            items[j].dict.Repr !! items[k].dict.Repr)
    }

    /** The document the dictionary holds. */
    ghost function Tree(): Doc
      requires Valid()
      reads this, Repr
      decreases Repr
    {
      Obj(map k | k in items :: if items[k].Ref? then items[k].dict.Tree() else Leaf(items[k].text))
    }
  }

  /** The document after one key of the source has been merged in. */
  ghost function MergedOne(d: Doc, s: Doc, k: string): Doc
    requires d.Obj? && s.Obj? && k in s.fields
  {
    Obj(d.fields[k := if k in d.fields then Merged(d.fields[k], s.fields[k]) else s.fields[k]])
  }

  /** What below one key belongs to that key alone. */
  lemma KeysApart(d: Dict)
    requires d.Valid()
    ensures forall k :: d.Below(k) <= d.Repr - {d}
    ensures forall j, k | j != k :: d.Below(j) !! d.Below(k)
    ensures d.Tree().Obj? && d.Tree().fields.Keys == d.items.Keys
  {
  }

  /** The document at a key. */
  ghost function At(d: Dict, k: string): Doc
    requires d.Valid() && k in d.items
    reads d, d.Repr
  {
    if d.items[k].Ref? then d.items[k].dict.Tree() else Leaf(d.items[k].text)
  }

  lemma TreeIsAt(d: Dict)
    requires d.Valid()
    ensures d.Tree().Obj? && d.Tree().fields.Keys == d.items.Keys
    ensures forall k | k in d.items :: d.Tree().fields[k] == At(d, k)
  {
  }

  /** When only key `k` changed, the document changed at `k` alone. */
  lemma TreeWithKey(d: Dict, k: string, was: Doc)
    requires d.Valid() && k in d.items && was.Obj?
    requires d.items.Keys == was.fields.Keys + {k}
    requires forall j | j in d.items && j != k :: At(d, j) == was.fields[j]
    ensures d.Tree() == Obj(was.fields[k := At(d, k)])
  {
    assert d.Tree().fields == was.fields[k := At(d, k)];
  }

  /** Nothing below the other keys of the destination, and nothing of the source, is touched. */
  method MergeKey(dst: Dict, src: Dict, k: string)
    requires dst.Valid() && src.Valid() && k in src.items
    requires src.Below(k) !! dst.Repr
    requires dst !in src.Repr && dst.Below(k) !! src.Repr
    modifies dst, dst.Below(k)
    ensures dst.Valid() && src.Valid()
    ensures src.Tree() == old(src.Tree()) && src.items == old(src.items) && src.Repr == old(src.Repr)
    ensures forall j :: src.Below(j) == old(src.Below(j))
    ensures dst.Repr == old(dst.Repr) + old(src.Below(k))
    ensures forall j | j != k :: dst.Below(j) == old(dst.Below(j))
    ensures dst.Tree() == MergedOne(old(dst.Tree()), old(src.Tree()), k)
    decreases src.Repr, 1
  {
    TreeIsAt(src);
    var v := src.items[k];
    if v.Ref? && k in dst.items && dst.items[k].Ref? {
      MergeNested(dst, k, v.dict);
    } else {
      Assign(dst, src, k);
    }
  }

  method Assign(dst: Dict, src: Dict, k: string)
    requires dst.Valid() && src.Valid() && k in src.items && src.Below(k) !! dst.Repr && dst !in src.Repr
    modifies dst
    ensures dst.Valid() && src.Valid() && src.Tree() == old(src.Tree())
    ensures dst.Repr == old(dst.Repr) + old(src.Below(k))
    ensures forall j | j != k :: dst.Below(j) == old(dst.Below(j))
    ensures dst.Tree() == Obj(old(dst.Tree()).fields[k := src.Tree().fields[k]])
  {
    ghost var was := dst.Tree();
    dst.items := dst.items[k := src.items[k]];
    dst.Repr := dst.Repr + src.Below(k);
    TreeWithKey(dst, k, was);
  }

  /** A dictionary is a tree again when one of its nested ones has changed within its reach. */
  lemma KidChanged(dst: Dict, k: string, kid: Dict)
    requires dst in dst.Repr && k in dst.items && dst.items[k] == Ref(kid)
    requires kid in dst.Repr && kid.Valid() && kid.Repr <= dst.Repr - {dst}
    requires forall j | j in dst.items && j != k && dst.items[j].Ref? ::
               var d := dst.items[j].dict;
               d in dst.Repr && d.Repr <= dst.Repr - {dst} && d.Valid() && d.Repr !! kid.Repr
    requires forall i, j | i in dst.items && j in dst.items && i != j && i != k && j != k && dst.items[i].Ref? && dst.items[j].Ref? ::
               dst.items[i].dict.Repr !! dst.items[j].dict.Repr
    ensures dst.Valid()
  {
  }

  method MergeNested(dst: Dict, k: string, sub: Dict)
    requires dst.Valid() && sub.Valid() && sub.Repr !! dst.Repr
    requires k in dst.items && dst.items[k].Ref?
    modifies dst, dst.Below(k)
    ensures dst.Valid() && dst.Repr == old(dst.Repr) + old(sub.Repr)
    ensures forall j | j != k :: dst.Below(j) == old(dst.Below(j))
    ensures dst.Tree() == Obj(old(dst.Tree()).fields[k := Merged(old(dst.Tree()).fields[k], old(sub.Tree()))])
    decreases sub.Repr, 3
  {
    TreeIsAt(dst);
    hide Merged;
    var kid := dst.items[k].dict;
    ghost var was := dst.Tree();
    ghost var merged := Merged(kid.Tree(), sub.Tree());
    assert was.fields[k] == kid.Tree();
    Merge(kid, sub);
    dst.Repr := dst.Repr + old(sub.Repr);
    KidChanged(dst, k, kid);
    hide Dict.Tree;
    TreeWithKey(dst, k, was);
    assert At(dst, k) == merged;
  }

  /** The keys of `done` have been merged into a document that was `was`. */
  ghost predicate MergedSoFar(was: Doc, s: Doc, done: set<string>, now: Doc) {
    && was.Obj? && s.Obj? && now.Obj? && done <= s.fields.Keys
    && now.fields.Keys == was.fields.Keys + done
    && forall k | k in now.fields ::
         now.fields[k] == (if k !in done then was.fields[k]
                           else if k in was.fields then Merged(was.fields[k], s.fields[k]) else s.fields[k])
  }

  lemma MergedFurther(was: Doc, s: Doc, done: set<string>, now: Doc, k: string)
    requires MergedSoFar(was, s, done, now) && k in s.fields && k !in done
    ensures MergedSoFar(was, s, done + {k}, MergedOne(now, s, k))
  {
  }

  lemma MergedAll(was: Doc, s: Doc, now: Doc)
    requires s.Obj? && MergedSoFar(was, s, s.fields.Keys, now)
    ensures now == Merged(was, s)
  {
    assert now.fields == Merged(was, s).fields;
  }

  lemma NothingMerged(was: Doc, s: Doc)
    requires was.Obj? && s.Obj?
    ensures MergedSoFar(was, s, {}, was)
  {
  }

  method Merge(dst: Dict, src: Dict)
    requires dst.Valid() && src.Valid() && dst.Repr !! src.Repr
    modifies dst.Repr
    ensures dst.Valid() && dst.Repr <= old(dst.Repr) + old(src.Repr)
    ensures dst.Tree() == Merged(old(dst.Tree()), old(src.Tree()))
    decreases src.Repr, 2
  {
    ghost var was, from := dst.Tree(), src.Tree();
    var todo := src.items.Keys;
    ghost var done: set<string> := {};
    NothingMerged(was, from);
    KeysApart(dst);
    KeysApart(src);
    hide Merged, MergedSoFar, MergedOne, Dict.Valid, Dict.Tree, Dict.Below;
    while todo != {}
      invariant todo + done == src.items.Keys && todo !! done
      invariant dst.Valid() && src.Valid() && src.Tree() == from && from.fields.Keys == src.items.Keys
      invariant dst.Repr <= old(dst.Repr) + old(src.Repr) && src.Repr == old(src.Repr)
      invariant forall k | k in todo :: dst.Below(k) <= old(dst.Repr) && src.Below(k) !! dst.Repr
      invariant MergedSoFar(was, from, done, dst.Tree())
    {
      KeysApart(src);
      var k :| k in todo;
      MergedFurther(was, from, done, dst.Tree(), k);
      MergeKey(dst, src, k);
      todo := todo - {k};
      done := done + {k};
    }
    assert done == from.fields.Keys;
    assert dst.Repr <= old(dst.Repr) + old(src.Repr);
    MergedAll(was, from, dst.Tree());
  }

  // ----- deep copies ----------------------------------------------------------------

  /** A copy that shares no dictionary with the original. */
  method DeepCopy(d: Dict) returns (copy: Dict)
    requires d.Valid()
    ensures copy.Valid() && fresh(copy.Repr)
    ensures copy.Tree() == d.Tree()
    decreases d.Repr
  {
    copy := new Dict();
    var todo := d.items.Keys;
    KeysApart(d);
    while todo != {}
      invariant todo <= d.items.Keys
      invariant copy.Valid() && fresh(copy.Repr)
      invariant copy.items.Keys == d.items.Keys - todo
      invariant forall k | k in copy.items :: At(copy, k) == At(d, k)
    {
      var k :| k in todo;
      CopyKey(d, copy, k);
      todo := todo - {k};
    }
    assert copy.Tree().fields == d.Tree().fields;
  }

  method CopyKey(d: Dict, copy: Dict, k: string)
    requires d.Valid() && copy.Valid() && d.Repr !! copy.Repr
    requires k in d.items && k !in copy.items
    modifies copy
    ensures copy.Valid() && fresh(copy.Repr - old(copy.Repr)) && old(copy.Repr) <= copy.Repr
    ensures copy.items.Keys == old(copy.items.Keys) + {k} && At(copy, k) == At(d, k)
    ensures forall j | j in old(copy.items) :: copy.items[j] == old(copy.items[j]) && At(copy, j) == old(At(copy, j))
    decreases d.Repr, 0
  {
    var v := d.items[k];
    if v.Ref? {
      var sub := DeepCopy(v.dict);
      v := Ref(sub);
      copy.Repr := copy.Repr + sub.Repr;
    }
    copy.items := copy.items[k := v];
  }

  // ----- the variants ---------------------------------------------------------------

  /** The document a dictionary holds, as a value of its own. */
  method Dump(d: Dict) returns (doc: Doc)
    requires d.Valid()
    ensures doc == d.Tree()
    decreases d.Repr
  {
    var fields: map<string, Doc> := map[];
    var todo := d.items.Keys;
    while todo != {}
      invariant todo <= d.items.Keys
      invariant fields.Keys == d.items.Keys - todo
      invariant forall k | k in fields :: fields[k] == At(d, k)
    {
      var k :| k in todo;
      var field;
      if d.items[k].Ref? {
        field := Dump(d.items[k].dict);
      } else {
        field := Leaf(d.items[k].text);
      }
      fields := fields[k := field];
      todo := todo - {k};
    }
    doc := Obj(fields);
    assert fields == d.Tree().fields;
  }

  /** A variant overrides whole top-level documents of the base, and only those. */
  ghost predicate Overrides(variant: Dict, base: Dict)
    reads variant, base
  {
    forall top | top in variant.items ::
      variant.items[top].Ref? && top in base.items && base.items[top].Ref?
  }

  method RenderVariant(base: Dict, variant: Dict) returns (row: Doc)
    requires base.Valid() && variant.Valid() && Overrides(variant, base)
    ensures row == Merged(base.Tree(), variant.Tree())
  {
    hide Merged;
    ghost var expected := Merged(base.Tree(), variant.Tree());
    var merged := DeepCopy(base);
    Merge(merged, variant);
    row := Dump(merged);
    assert row == expected;
  }

  /** The merged document of every variant. The base document and the variants are what they
      were, although the merged copies share parts of the variants. The loop over a variant's
      top-level documents is the merge of the two outer dictionaries. */
  method RenderVariants(base: Dict, variants: seq<Dict>) returns (rows: seq<Doc>)
    requires base.Valid()
    requires forall v | v in variants :: v.Valid() && Overrides(v, base)
    ensures base.Valid() && base.Tree() == old(base.Tree())
    ensures forall v | v in variants :: v.Valid() && v.Tree() == old(v.Tree())
    ensures |rows| == |variants|
    ensures forall i | 0 <= i < |variants| :: rows[i] == Merged(base.Tree(), variants[i].Tree())
  {
    hide Merged, Dict.Tree, Dict.Valid;
    rows := [];
    for i := 0 to |variants|
      invariant |rows| == i
      invariant forall j | 0 <= j < i :: rows[j] == Merged(old(base.Tree()), old(variants[j].Tree()))
    {
      var row := RenderVariant(base, variants[i]);
      rows := rows + [row];
    }
  }
}
