/** The document merge of tools/gen_server_spec_rs.py: what merging two documents means,
    path by path, and that merging variants in place never reaches the base document. */
module DocMerge {
  import opened Text

  // ----- the meaning of a merge -----------------------------------------------------

  /** A parsed document: a mapping, or anything else. */
  datatype Doc = Leaf(text: string) | Obj(fields: map<string, Doc>)

  /** Two mappings merge key by key; otherwise the source replaces the destination. */
  function Merged(d: Doc, s: Doc): Doc
    decreases s
  {
    if d.Obj? && s.Obj? then
      Obj(map k | k in d.fields.Keys + s.fields.Keys ::
        if k !in s.fields then d.fields[k]
        else if k !in d.fields then s.fields[k]
        else Merged(d.fields[k], s.fields[k]))
    else s
  }

  /** The document at a path. */
  function Lookup(d: Doc, path: seq<string>): Option<Doc>
    decreases |path|
  {
    if path == [] then Some(d)
    else if d.Obj? && path[0] in d.fields then Lookup(d.fields[path[0]], path[1..])
    else None
  }

  /** The source says nothing about the path: walking it, a mapping lacks the next key. */
  predicate Untouched(s: Doc, path: seq<string>)
    decreases |path|
  {
    path != [] && s.Obj? && (path[0] !in s.fields || Untouched(s.fields[path[0]], path[1..]))
  }

  /** Source leaves win. */
  lemma {:induction false} SourceLeavesWin(d: Doc, s: Doc, path: seq<string>)
    requires Lookup(s, path).Some? && Lookup(s, path).value.Leaf?
    ensures Lookup(Merged(d, s), path) == Lookup(s, path)
    decreases |path|
  {
    if path != [] && d.Obj? && path[0] in d.fields {
      SourceLeavesWin(d.fields[path[0]], s.fields[path[0]], path[1..]);
    }
  }

  /** Paths the source does not touch survive. */
  lemma {:induction false} UntouchedPathsSurvive(d: Doc, s: Doc, path: seq<string>)
    requires d.Obj? && Untouched(s, path)
    ensures Lookup(Merged(d, s), path) == Lookup(d, path)
    decreases |path|
  {
    var k := path[0];
    if k in s.fields {
      if k in d.fields && d.fields[k].Obj? {
        UntouchedPathsSurvive(d.fields[k], s.fields[k], path[1..]);
      } else {
        UntouchedIsAbsent(s.fields[k], path[1..]);
      }
    }
  }

  lemma {:induction false} UntouchedIsAbsent(s: Doc, path: seq<string>)
    requires Untouched(s, path)
    ensures Lookup(s, path) == None
    decreases |path|
  {
    if path[0] in s.fields {
      UntouchedIsAbsent(s.fields[path[0]], path[1..]);
    }
  }

  function FieldsAt(d: Doc, path: seq<string>): set<string> {
    match Lookup(d, path)
    case Some(Obj(fields)) => fields.Keys
    case _ => {}
  }

  /** Where the source has a mapping the result has one, with the keys of both sides. */
  lemma {:induction false} SourceMappingsJoin(d: Doc, s: Doc, path: seq<string>)
    requires Lookup(s, path).Some? && Lookup(s, path).value.Obj?
    ensures var r := Lookup(Merged(d, s), path);
      r.Some? && r.value.Obj? && r.value.fields.Keys == FieldsAt(d, path) + FieldsAt(s, path)
    decreases |path|
  {
    if path != [] && d.Obj? && path[0] in d.fields {
      SourceMappingsJoin(d.fields[path[0]], s.fields[path[0]], path[1..]);
    }
  }

  /** Below a source leaf nothing is left of the destination. */
  lemma {:induction false} NothingBelowSourceLeaf(d: Doc, s: Doc, path: seq<string>)
    requires Lookup(s, path) == None && !Untouched(s, path)
    ensures Lookup(Merged(d, s), path) == None
    decreases |path|
  {
    if s.Obj? && path[0] in s.fields && d.Obj? && path[0] in d.fields {
      NothingBelowSourceLeaf(d.fields[path[0]], s.fields[path[0]], path[1..]);
    }
  }

  // ----- algebra --------------------------------------------------------------------

  /** Merging `a` before `c` leaves no trace: `c` has every key `a` has, at every mapping. */
  predicate Covered(a: Doc, c: Doc)
    decreases c
  {
    a.Obj? && c.Obj? ==>
      a.fields.Keys <= c.fields.Keys && forall k | k in a.fields && k in c.fields :: Covered(a.fields[k], c.fields[k])
  }

  lemma {:induction false} CoveredIsAbsorbed(a: Doc, c: Doc)
    ensures Merged(a, c) == c <==> Covered(a, c)
    decreases c
  {
    if a.Obj? && c.Obj? {
      forall k | k in a.fields && k in c.fields
        ensures Merged(a.fields[k], c.fields[k]) == c.fields[k] <==> Covered(a.fields[k], c.fields[k])
      {
        CoveredIsAbsorbed(a.fields[k], c.fields[k]);
      }
      var m := Merged(a, c);
      assert m.fields.Keys == a.fields.Keys + c.fields.Keys;
      if m == c {
        forall k | k in a.fields && k in c.fields ensures Covered(a.fields[k], c.fields[k]) {
          assert m.fields[k] == Merged(a.fields[k], c.fields[k]);
        }
      }
      if Covered(a, c) {
        assert m.fields == c.fields;
      }
    }
  }

  lemma {:induction false} CoversItself(s: Doc)
    ensures Covered(s, s)
    decreases s
  {
    if s.Obj? {
      forall k | k in s.fields ensures Covered(s.fields[k], s.fields[k]) {
        CoversItself(s.fields[k]);
      }
    }
  }

  /** Merging the same source twice is merging it once. */
  lemma {:induction false} MergeIsIdempotent(d: Doc, s: Doc)
    ensures Merged(Merged(d, s), s) == Merged(d, s)
    decreases s
  {
    if d.Obj? && s.Obj? {
      var m := Merged(d, s);
      forall k | k in s.fields ensures Merged(m.fields[k], s.fields[k]) == m.fields[k] {
        if k in d.fields {
          MergeIsIdempotent(d.fields[k], s.fields[k]);
        } else {
          CoversItself(s.fields[k]);
          CoveredIsAbsorbed(s.fields[k], s.fields[k]);
        }
      }
      assert Merged(m, s).fields == m.fields;
    } else {
      CoversItself(s);
      CoveredIsAbsorbed(s, s);
    }
  }

  /** Where a leaf of `b` would separate two mappings, the outer one must be covered. */
  predicate Associates(a: Doc, b: Doc, c: Doc)
    decreases c
  {
    c.Obj? ==>
      if b.Leaf? then Covered(a, c)
      else a.Obj? ==> forall k | k in a.fields && k in b.fields && k in c.fields ::
        Associates(a.fields[k], b.fields[k], c.fields[k])
  }

  /** One key of the two ways to merge three mappings. */
  lemma MergedAt(d: Doc, s: Doc, k: string)
    requires d.Obj? && s.Obj?
    ensures Merged(d, s).Obj? && Merged(d, s).fields.Keys == d.fields.Keys + s.fields.Keys
    ensures k in d.fields && k in s.fields ==> Merged(d, s).fields[k] == Merged(d.fields[k], s.fields[k])
    ensures k in d.fields && k !in s.fields ==> Merged(d, s).fields[k] == d.fields[k]
    ensures k !in d.fields && k in s.fields ==> Merged(d, s).fields[k] == s.fields[k]
  {
  }

  lemma MergedThrice(a: Doc, b: Doc, c: Doc, k: string)
    requires a.Obj? && b.Obj? && c.Obj?
    ensures var l, r := Merged(Merged(a, b), c), Merged(a, Merged(b, c));
      && l.Obj? && r.Obj? && l.fields.Keys == r.fields.Keys == a.fields.Keys + b.fields.Keys + c.fields.Keys
      && (k in a.fields && k in b.fields && k in c.fields ==>
            && l.fields[k] == Merged(Merged(a.fields[k], b.fields[k]), c.fields[k])
            && r.fields[k] == Merged(a.fields[k], Merged(b.fields[k], c.fields[k])))
      && (k in l.fields && !(k in a.fields && k in b.fields && k in c.fields) ==> l.fields[k] == r.fields[k])
  {
    hide Merged;
    MergedAt(a, b, k);
    MergedAt(b, c, k);
    MergedAt(Merged(a, b), c, k);
    MergedAt(a, Merged(b, c), k);
  }

  /** Merging is associative exactly when no leaf of the middle document separates a mapping
      of the first from one of the third that does not cover it. */
  lemma {:induction false} AssociativeExactly(a: Doc, b: Doc, c: Doc)
    ensures Merged(Merged(a, b), c) == Merged(a, Merged(b, c)) <==> Associates(a, b, c)
    decreases c
  {
    if c.Obj? && b.Leaf? {
      CoveredIsAbsorbed(a, c);
    } else if c.Obj? && a.Obj? {
      hide Merged;
      var l, r := Merged(Merged(a, b), c), Merged(a, Merged(b, c));
      MergedThrice(a, b, c, "");
      forall k ensures k in l.fields ==>
        (l.fields[k] == r.fields[k] <==>
          (k in a.fields && k in b.fields && k in c.fields ==> Associates(a.fields[k], b.fields[k], c.fields[k])))
      {
        MergedThrice(a, b, c, k);
        if k in a.fields && k in b.fields && k in c.fields {
          AssociativeExactly(a.fields[k], b.fields[k], c.fields[k]);
        }
      }
      SameFields(l, r);
    }
  }

  lemma SameFields(l: Doc, r: Doc)
    requires l.Obj? && r.Obj? && l.fields.Keys == r.fields.Keys
    ensures l == r <==> forall k | k in l.fields :: l.fields[k] == r.fields[k]
  {
    if forall k | k in l.fields :: l.fields[k] == r.fields[k] {
      assert l.fields == r.fields;
    }
  }

  /** Two documents that never disagree about which paths are mappings. */
  predicate Agree(a: Doc, b: Doc)
    decreases b
  {
    a.Obj? == b.Obj? && (a.Obj? ==>
      forall k | k in a.fields && k in b.fields :: Agree(a.fields[k], b.fields[k]))
  }

  lemma {:induction false} AgreementAssociates(a: Doc, b: Doc, c: Doc)
    requires Agree(b, c)
    ensures Associates(a, b, c)
    ensures Merged(Merged(a, b), c) == Merged(a, Merged(b, c))
    decreases c
  {
    if c.Obj? && a.Obj? {
      forall k | k in a.fields && k in b.fields && k in c.fields
        ensures Associates(a.fields[k], b.fields[k], c.fields[k])
      {
        AgreementAssociates(a.fields[k], b.fields[k], c.fields[k]);
      }
    }
    AssociativeExactly(a, b, c);
  }

  /** A leaf in the middle makes the order matter. */
  lemma LeafInTheMiddleSeparates()
    ensures var a, b, c := Obj(map["x" := Obj(map["old" := Leaf("1")])]), Obj(map["x" := Leaf("2")]), Obj(map["x" := Obj(map["new" := Leaf("3")])]);
      Merged(Merged(a, b), c) != Merged(a, Merged(b, c))
  {
    var a, b, c := Obj(map["x" := Obj(map["old" := Leaf("1")])]), Obj(map["x" := Leaf("2")]), Obj(map["x" := Obj(map["new" := Leaf("3")])]);
    assert "x" in a.fields && "x" in b.fields && "x" in c.fields;
    assert "old" in a.fields["x"].fields && "old" !in c.fields["x"].fields;
    assert !Covered(a.fields["x"], c.fields["x"]);
    assert !Associates(a, b, c);
    AssociativeExactly(a, b, c);
  }
}
