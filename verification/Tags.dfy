/** Azure DevOps tags: one name space that ignores case. */
module Tags {
  import opened Text

  predicate Has(tags: seq<string>, name: string) {
    exists i :: 0 <= i < |tags| && SameFold(tags[i], name)
  }

  predicate DistinctFold(tags: seq<string>) {
    forall i, j :: 0 <= i < j < |tags| ==> !SameFold(tags[i], tags[j])
  }

  /** normalizeLabelNames. */
  function Normalized(names: seq<string>): seq<string> {
    if names == [] then []
    else
      var name := Trim(names[|names| - 1]);
      Normalized(names[..|names| - 1]) + (if name == "" then [] else [name])
  }

  /** The labels as given hold a non-blank one that folds to name once trimmed. */
  predicate Names(labels: seq<string>, name: string) {
    exists i :: 0 <= i < |labels| && Trim(labels[i]) != "" && SameFold(Trim(labels[i]), name)
  }

  /** Normalizing keeps exactly the non-blank names, trimmed. */
  lemma {:induction false} NormalizedMembers(names: seq<string>, name: string)
    ensures name in Normalized(names) <==> name != "" && exists i :: 0 <= i < |names| && Trim(names[i]) == name
    ensures |Normalized(names)| <= |names|
  {
    if names != [] {
      var front := names[..|names| - 1];
      NormalizedMembers(front, name);
      if i :| 0 <= i < |front| && Trim(front[i]) == name {
        assert names[i] == front[i];
      }
      if i :| 0 <= i < |names| && Trim(names[i]) == name {
        assert i < |front| ==> front[i] == names[i];
      }
    }
  }

  /** And it works name by name, so keeps their order. */
  lemma {:induction false} NormalizedConcat(a: seq<string>, b: seq<string>)
    ensures Normalized(a + b) == Normalized(a) + Normalized(b)
  {
    if b == [] {
      assert a + b == a;
    } else {
      assert (a + b)[..|a + b| - 1] == a + b[..|b| - 1];
      NormalizedConcat(a, b[..|b| - 1]);
    }
  }

  lemma HasNormalized(labels: seq<string>, name: string)
    ensures Has(Normalized(labels), name) <==> Names(labels, name)
  {
    var ts := Normalized(labels);
    if Has(ts, name) {
      var i :| 0 <= i < |ts| && SameFold(ts[i], name);
      assert ts[i] in ts;
      NormalizedMembers(labels, ts[i]);
    }
    if Names(labels, name) {
      var i :| 0 <= i < |labels| && Trim(labels[i]) != "" && SameFold(Trim(labels[i]), name);
      NormalizedMembers(labels, Trim(labels[i]));
      var k :| 0 <= k < |ts| && ts[k] == Trim(labels[i]);
    }
  }

  /** The tags that survive a removal, the first of each spelling. */
  function Kept(current: seq<string>, remove: seq<string>): seq<string> {
    if current == [] then []
    else
      var front, tag := Kept(current[..|current| - 1], remove), current[|current| - 1];
      if Has(remove, tag) || Has(front, tag) then front else front + [tag]
  }

  /** Additions, keeping the spelling already there. */
  function Added(tags: seq<string>, add: seq<string>): seq<string> {
    if add == [] then tags
    else
      var front, tag := Added(tags, add[..|add| - 1]), add[|add| - 1];
      if Has(front, tag) then front else front + [tag]
  }

  /** The tag set after removing and then adding. */
  function TagSet(current: seq<string>, add: seq<string>, remove: seq<string>): seq<string> {
    Added(Kept(Normalized(current), Normalized(remove)), Normalized(add))
  }

  lemma HasNext(tags: seq<string>, tag: string, name: string)
    ensures Has(tags + [tag], name) <==> Has(tags, name) || SameFold(tag, name)
  {
    if Has(tags, name) {
      var i :| 0 <= i < |tags| && SameFold(tags[i], name);
      assert (tags + [tag])[i] == tags[i];
    }
    if SameFold(tag, name) {
      assert (tags + [tag])[|tags|] == tag;
    }
  }

  lemma {:induction false} KeptMeans(current: seq<string>, remove: seq<string>, name: string)
    ensures Has(Kept(current, remove), name) <==> Has(current, name) && !Has(remove, name)
    ensures DistinctFold(Kept(current, remove))
  {
    if current != [] {
      var front, tag := current[..|current| - 1], current[|current| - 1];
      assert current == front + [tag];
      KeptMeans(front, remove, name);
      KeptMeans(front, remove, tag);
      HasNext(front, tag, name);
      HasNext(Kept(front, remove), tag, name);
      if SameFold(tag, name) {
        SameNameSameTag(remove, tag, name);
        SameNameSameTag(Kept(front, remove), tag, name);
      }
    }
  }

  lemma SameNameSameTag(tags: seq<string>, a: string, b: string)
    requires SameFold(a, b)
    ensures Has(tags, a) == Has(tags, b)
  {
  }

  lemma {:induction false} AddedMeans(tags: seq<string>, add: seq<string>, name: string)
    requires DistinctFold(tags)
    ensures Has(Added(tags, add), name) <==> Has(tags, name) || Has(add, name)
    ensures DistinctFold(Added(tags, add))
  {
    if add != [] {
      var front, tag := add[..|add| - 1], add[|add| - 1];
      assert add == front + [tag];
      AddedMeans(tags, front, name);
      AddedMeans(tags, front, tag);
      HasNext(front, tag, name);
      HasNext(Added(tags, front), tag, name);
      if SameFold(tag, name) {
        SameNameSameTag(Added(tags, front), tag, name);
      }
    }
  }

  /** On the labels as given: an item carries a name afterwards exactly when a non-blank one
      of add folds to it, or one of the current tags does and none of remove; no name appears
      twice in any casing. */
  lemma TagSetMeans(current: seq<string>, add: seq<string>, remove: seq<string>, name: string)
    ensures Has(TagSet(current, add, remove), name)
            <==> Names(add, name) || (Names(current, name) && !Names(remove, name))
    ensures DistinctFold(TagSet(current, add, remove))
  {
    HasNormalized(current, name);
    HasNormalized(add, name);
    HasNormalized(remove, name);
    KeptMeans(Normalized(current), Normalized(remove), name);
    AddedMeans(Kept(Normalized(current), Normalized(remove)), Normalized(add), name);
  }

  lemma {:induction false} KeptMembers(current: seq<string>, remove: seq<string>, tag: string)
    requires tag in Kept(current, remove)
    ensures tag in current
  {
    var front := current[..|current| - 1];
    if tag in Kept(front, remove) {
      KeptMembers(front, remove, tag);
    }
  }

  lemma {:induction false} AddedMembers(tags: seq<string>, add: seq<string>, tag: string)
    requires tag in Added(tags, add)
    ensures tag in tags || (tag in add && !Has(tags, tag))
  {
    if add != [] {
      var front, last := add[..|add| - 1], add[|add| - 1];
      if tag in Added(tags, front) {
        AddedMembers(tags, front, tag);
      } else {
        AddedKeeps(tags, front);
        assert forall i :: 0 <= i < |tags| ==> Added(tags, front)[i] == tags[i];
      }
    }
  }

  lemma {:induction false} AddedKeeps(tags: seq<string>, add: seq<string>)
    ensures tags <= Added(tags, add)
  {
    if add != [] {
      AddedKeeps(tags, add[..|add| - 1]);
    }
  }

  /** Nothing else is there, and a tag already there keeps its spelling: every tag afterwards
      is a trimmed current one, or a trimmed added one that no kept current one folds to. */
  lemma TagSetSpelling(current: seq<string>, add: seq<string>, remove: seq<string>, tag: string)
    requires tag in TagSet(current, add, remove)
    ensures || (exists i :: 0 <= i < |current| && Trim(current[i]) == tag)
            || ((exists i :: 0 <= i < |add| && Trim(add[i]) == tag) && (Names(current, tag) ==> Names(remove, tag)))
  {
    var kept := Kept(Normalized(current), Normalized(remove));
    AddedMembers(kept, Normalized(add), tag);
    if tag in kept {
      KeptMembers(Normalized(current), Normalized(remove), tag);
      NormalizedMembers(current, tag);
    } else {
      NormalizedMembers(add, tag);
      KeptMeans(Normalized(current), Normalized(remove), tag);
      HasNormalized(current, tag);
      HasNormalized(remove, tag);
    }
  }

  method Normalize(names: seq<string>) returns (normalized: seq<string>)
    ensures normalized == Normalized(names)
  {
    normalized := [];
    for i := 0 to |names|
      invariant normalized == Normalized(names[..i])
    {
      assert names[..i + 1][..i] == names[..i];
      if Trim(names[i]) != "" {
        normalized := normalized + [Trim(names[i])];
      }
    }
    assert names[..|names|] == names;
  }

  /** The folded names of some tags. */
  ghost predicate Keys(keys: set<string>, tags: seq<string>) {
    forall name :: Lower(name) in keys <==> Has(tags, name)
  }

  lemma KeysGrow(keys: set<string>, tags: seq<string>, tag: string)
    requires Keys(keys, tags)
    ensures Keys(keys + {Lower(tag)}, tags + [tag])
  {
    forall name ensures Lower(name) in keys + {Lower(tag)} <==> Has(tags + [tag], name) {
      HasNext(tags, tag, name);
    }
  }

  method KeySet(tags: seq<string>) returns (keys: set<string>)
    ensures Keys(keys, tags)
  {
    keys := {};
    for i := 0 to |tags|
      invariant Keys(keys, tags[..i])
    {
      assert tags[..i + 1] == tags[..i] + [tags[i]];
      KeysGrow(keys, tags[..i], tags[i]);
      keys := keys + {Lower(tags[i])};
    }
    assert tags[..|tags|] == tags;
  }

  /** applyADOTagSet. */
  method ApplyTagSet(current: seq<string>, add: seq<string>, remove: seq<string>) returns (result: seq<string>)
    ensures result == TagSet(current, add, remove)
  {
    var have := Normalize(current);
    var adding := Normalize(add);
    var removing := Normalize(remove);
    var removed := KeySet(removing);
    var present;
    result, present := Keep(have, removed, removing);
    result := Add(result, present, adding);
  }

  method Keep(have: seq<string>, removed: set<string>, ghost removing: seq<string>)
    returns (result: seq<string>, present: set<string>)
    requires Keys(removed, removing)
    ensures result == Kept(have, removing) && Keys(present, result)
  {
    result, present := [], {};
    for i := 0 to |have|
      invariant result == Kept(have[..i], removing) && Keys(present, result)
    {
      assert have[..i + 1][..i] == have[..i];
      var key := Lower(have[i]);
      if key !in removed && key !in present {
        KeysGrow(present, result, have[i]);
        present := present + {key};
        result := result + [have[i]];
      }
    }
    assert have[..|have|] == have;
  }

  method Add(tags: seq<string>, present: set<string>, adding: seq<string>) returns (result: seq<string>)
    requires Keys(present, tags)
    ensures result == Added(tags, adding)
  {
    result := tags;
    var keys := present;
    for i := 0 to |adding|
      invariant result == Added(tags, adding[..i]) && Keys(keys, result)
    {
      assert adding[..i + 1][..i] == adding[..i];
      var key := Lower(adding[i]);
      if key !in keys {
        KeysGrow(keys, result, adding[i]);
        keys := keys + {key};
        result := result + [adding[i]];
      }
    }
    assert adding[..|adding|] == adding;
  }
}
