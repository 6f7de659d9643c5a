/** What the tests of `OrderedMapping` and `mapping_merge` assert, stated
  for all inputs and proved from the definitions in `OrderedMappings`.
 */
module OrderedMappingLaws {
  import opened Results
  import opened OrderedMappings
  import Strings

  /** The keys of `ks` not already in `seen`, in the order of `ks`. */
  function Fresh<K(==)>(ks: seq<K>, seen: seq<K>): seq<K>
  {
    if |ks| == 0 then []
    else (if ks[0] in seen then [] else [ks[0]]) + Fresh(ks[1..], seen)
  }

  lemma {:induction false} FreshExtend<K>(ks: seq<K>, seen: seq<K>, k: K)
    requires k !in ks
    ensures Fresh(ks, seen + [k]) == Fresh(ks, seen)
  {
    if |ks| > 0 {
      FreshExtend(ks[1..], seen, k);
    }
  }

  lemma ConcatAssoc<T>(a: seq<T>, b: seq<T>, c: seq<T>)
    ensures (a + b) + c == a + (b + c)
  {
  }

  // ---------------------------------------------------------------------------
  // Insertion order
  // ---------------------------------------------------------------------------

  /** Assigning keys that are all new appends them in assignment order. */
  lemma {:induction false} MergeFresh<K, V>(t: Mapping<K, V>, src: seq<Entry<K, V>>)
    requires Valid(t) && Distinct(KeysOf(src))
    requires forall i :: 0 <= i < |src| ==> KeysOf(src)[i] !in Keys(t)
    ensures Merge(t, src) == Mapping(t.typeName, t.entries + src)
    decreases |src|
  {
    if |src| == 0 {
      assert t.entries + src == t.entries;
    } else {
      var e := src[0];
      var rest := src[1..];
      var t' := Set(t, e.key, e.value);
      assert KeysOf(src)[0] == e.key;
      assert t' == Mapping(t.typeName, t.entries + [e]) && Valid(t') && Keys(t') == Keys(t) + [e.key] by {
        SetAppendsNew(t, e.key, e.value);
      }
      assert Distinct(KeysOf(rest)) && forall i :: 0 <= i < |rest| ==> KeysOf(rest)[i] !in Keys(t') by {
        KeysOfTail(src);
        NewKeysTail(KeysOf(src), Keys(t));
      }
      assert Merge(t, src) == Merge(t', rest);
      MergeFresh(t', rest);
      assert src == [e] + rest;
      ConcatAssoc(t.entries, [e], rest);
    }
  }

  /** Once the first of several distinct new keys is added, the others are
      still new. */
  lemma NewKeysTail<K>(ks: seq<K>, ts: seq<K>)
    requires Distinct(ks) && |ks| > 0
    requires forall i :: 0 <= i < |ks| ==> ks[i] !in ts
    ensures Distinct(ks[1..])
    ensures forall i :: 0 <= i < |ks| - 1 ==> ks[1..][i] !in ts + [ks[0]]
  {
    forall i | 0 <= i < |ks| - 1 ensures ks[1..][i] !in ts + [ks[0]] {
      assert ks[1..][i] == ks[i + 1];
    }
  }

  /** Iterating a mapping built by assigning distinct keys one after the
      other yields exactly those keys, in assignment order. */
  lemma InsertionOrder<K, V>(typeName: string, src: seq<Entry<K, V>>)
    requires Distinct(KeysOf(src))
    ensures Merge(Empty(typeName), src) == Mapping(typeName, src)
    ensures Keys(Merge(Empty(typeName), src)) == KeysOf(src)
  {
    MergeFresh(Empty<K, V>(typeName), src);
  }

  /** Assigning to a present key changes its value and nothing else;
      assigning to an absent key creates it at the end. */
  lemma SetThenGet<K, V>(m: Mapping<K, V>, k: K, v: V, access: Access)
    ensures Get(Set(m, k, v), k, access) == Ok(v)
    ensures forall k' :: k' != k ==> Get(Set(m, k, v), k', access) == Get(m, k', access)
    ensures k in Keys(m) ==> Keys(Set(m, k, v)) == Keys(m)
    ensures k !in Keys(m) ==> Keys(Set(m, k, v)) == Keys(m) + [k]
  {
    forall k' | k' != k
      ensures Get(Set(m, k, v), k', access) == Get(m, k', access)
    {
      SetFrame(m, k, v, k');
    }
  }

  /** Deleting a key hides it; assigning it again puts it at the end and
      leaves every other key in its relative order. */
  lemma DeleteThenReinsert<K, V>(m: Mapping<K, V>, k: K, v: V, access: Access)
    requires Valid(m) && k in Keys(m)
    ensures Delete(m, k, access).Ok?
    ensures var d := Delete(m, k, access).value;
      && Get(d, k, access) == Err(Missing(access))
      && k !in Keys(d)
      && Keys(Set(d, k, v)) == Without(Keys(m), k) + [k]
  {
  }

  /** Getting or deleting a missing key raises the idiom's error. */
  lemma MissingKeyFails<K, V>(m: Mapping<K, V>, k: K, access: Access)
    requires k !in Keys(m)
    ensures Get(m, k, Item) == Err(KeyError)
    ensures Get(m, k, Attribute) == Err(AttributeError)
    ensures Delete(m, k, Item) == Err(KeyError)
    ensures Delete(m, k, Attribute) == Err(AttributeError)
  {
  }

  // ---------------------------------------------------------------------------
  // Length
  // ---------------------------------------------------------------------------

  lemma {:induction false} DistinctCard<K>(ks: seq<K>)
    requires Distinct(ks)
    ensures |set k | k in ks| == |ks|
  {
    if |ks| > 0 {
      var rest := ks[1..];
      assert Distinct(rest);
      DistinctCard(rest);
      assert (set k | k in ks) == {ks[0]} + (set k | k in rest);
      assert ks[0] !in rest;
    }
  }

  /** `len(n)` is the number of distinct keys. */
  lemma LenCountsKeys<K, V>(m: Mapping<K, V>)
    requires Valid(m)
    ensures Len(m) == |set k | k in Keys(m)|
  {
    DistinctCard(Keys(m));
  }

  // ---------------------------------------------------------------------------
  // Equality
  // ---------------------------------------------------------------------------

  /** Equality holds exactly when the class, the entries and their order
      all agree; never against `None`. */
  lemma EqualIffSame<K, V>(a: Mapping<K, V>, b: Mapping<K, V>)
    requires Valid(a) && Valid(b)
    ensures Equal(a, Some(b)) <==> a == b
    ensures !Equal(a, None)
  {
    if Equal(a, Some(b)) {
      assert |a.entries| == |Keys(a)| == |Keys(b)| == |b.entries|;
      forall i | 0 <= i < |a.entries|
        ensures a.entries[i] == b.entries[i]
      {
        assert Keys(a)[i] == Keys(b)[i];
        LookupAt(a, i);
        LookupAt(b, i);
        assert a.entries[i].key in Keys(a);
      }
    }
  }

  /** Taking the first key out and putting it back with the same value
      yields a mapping that is not equal to the original. */
  lemma ReinsertFirstKeyIsUnequal<K, V>(m: Mapping<K, V>, access: Access)
    requires Valid(m) && |m.entries| >= 2
    ensures var k := m.entries[0].key;
      && Delete(m, k, access).Ok?
      && !Equal(m, Some(Set(Delete(m, k, access).value, k, m.entries[0].value)))
  {
    var ks := Keys(m);
    var k := ks[0];
    assert k in ks;
    var d := Delete(m, k, access).value;
    assert ks == [k] + ks[1..];
    assert k !in ks[1..] by {
      forall i | 0 <= i < |ks[1..]| ensures ks[1..][i] != k {
        assert ks[i + 1] != ks[0];
      }
    }
    WithoutConcat([k], ks[1..], k);
    WithoutAbsent(ks[1..], k);
    assert Without([k], k) == [];
    var n2 := Set(d, k, m.entries[0].value);
    assert Keys(n2) == ks[1..] + [k];
    assert Keys(n2)[0] == ks[1] != ks[0];
  }

  // ---------------------------------------------------------------------------
  // mapping_merge
  // ---------------------------------------------------------------------------

  /** Merging keeps every target key in place and appends the source's new
      keys in the source's order. */
  lemma {:induction false} MergeKeys<K, V>(t: Mapping<K, V>, src: seq<Entry<K, V>>)
    requires Valid(t) && Distinct(KeysOf(src))
    ensures Keys(Merge(t, src)) == Keys(t) + Fresh(KeysOf(src), Keys(t))
    decreases |src|
  {
    if |src| == 0 {
      assert Keys(t) + [] == Keys(t);
    } else {
      var e := src[0];
      var rest := src[1..];
      var t' := Set(t, e.key, e.value);
      assert Merge(t, src) == Merge(t', rest);
      assert Distinct(KeysOf(rest)) by {
        KeysOfTail(src);
      }
      MergeKeys(t', rest);
      FreshStep(t, src);
    }
  }

  /** One step of `MergeKeys`: the keys after assigning the first source
      entry, followed by the rest's fresh keys, are the target's keys
      followed by the whole source's fresh keys. */
  lemma FreshStep<K, V>(t: Mapping<K, V>, src: seq<Entry<K, V>>)
    requires Valid(t) && Distinct(KeysOf(src)) && |src| > 0
    ensures var t' := Set(t, src[0].key, src[0].value);
      Keys(t') + Fresh(KeysOf(src[1..]), Keys(t')) == Keys(t) + Fresh(KeysOf(src), Keys(t))
  {
    var ks := KeysOf(src);
    var k := src[0].key;
    var t' := Set(t, k, src[0].value);
    KeysOfTail(src);
    assert ks[0] == k;
    if k in Keys(t) {
      assert Keys(t') == Keys(t);
    } else {
      assert Keys(t') == Keys(t) + [k];
    }
    FreshStepKeys(Keys(t), Keys(t'), ks);
  }

  lemma FreshStepKeys<K>(ts: seq<K>, ts': seq<K>, ks: seq<K>)
    requires Distinct(ks) && |ks| > 0
    requires ks[0] in ts ==> ts' == ts
    requires ks[0] !in ts ==> ts' == ts + [ks[0]]
    ensures ts' + Fresh(ks[1..], ts') == ts + Fresh(ks, ts)
  {
    var rest := ks[1..];
    assert ks == [ks[0]] + rest;
    if ks[0] !in ts {
      assert ks[0] !in rest by {
        DistinctTail(ks);
      }
      FreshAppend(ts, ks[0], rest);
    }
  }

  /** The fresh-key bookkeeping when the first source key is new. */
  lemma FreshAppend<K>(ts: seq<K>, k: K, rest: seq<K>)
    requires k !in ts && k !in rest
    ensures (ts + [k]) + Fresh(rest, ts + [k]) == ts + Fresh([k] + rest, ts)
  {
    FreshExtend(rest, ts, k);
    assert ([k] + rest)[1..] == rest;
    assert Fresh([k] + rest, ts) == [k] + Fresh(rest, ts);
  }

  /** After merging, a key holds the source's value if the source has it
      and the target's value otherwise. */
  lemma {:induction false} MergeLookup<K, V>(t: Mapping<K, V>, src: seq<Entry<K, V>>, k: K)
    requires Distinct(KeysOf(src))
    ensures Lookup(Merge(t, src), k) == if k in KeysOf(src) then LookupIn(src, k) else Lookup(t, k)
    decreases |src|
  {
    if |src| > 0 {
      var e := src[0];
      var rest := src[1..];
      var t' := Set(t, e.key, e.value);
      assert Merge(t, src) == Merge(t', rest);
      assert Distinct(KeysOf(rest)) by {
        KeysOfTail(src);
      }
      MergeLookup(t', rest, k);
      if k == e.key {
        LookupInHead(src);
      } else {
        SetFrame(t, e.key, e.value, k);
        LookupInTail(src, k);
      }
    }
  }

  /** The first key of a duplicate-free source is found at the front and
      nowhere after it. */
  lemma LookupInHead<K, V>(src: seq<Entry<K, V>>)
    requires |src| > 0 && Distinct(KeysOf(src))
    ensures src[0].key in KeysOf(src) && src[0].key !in KeysOf(src[1..])
    ensures LookupIn(src, src[0].key) == Some(src[0].value)
  {
    var ks := KeysOf(src);
    assert ks[0] == src[0].key;
    KeysOfTail(src);
    DistinctTail(ks);
    assert Find(src, src[0].key) == Some(0);
  }

  /** Any other key is looked up in the rest of the source. */
  lemma LookupInTail<K, V>(src: seq<Entry<K, V>>, k: K)
    requires |src| > 0 && k != src[0].key
    ensures k in KeysOf(src) <==> k in KeysOf(src[1..])
    ensures LookupIn(src, k) == LookupIn(src[1..], k)
  {
    KeysOfTail(src);
  }

  /** The test's merge of `{existing: 3, new: 4}`: the existing key keeps its
      position and takes the new value, the new key lands at the end. */
  lemma MergeExistingAndNew<K, V>(t: Mapping<K, V>, existing: K, added: K, a: V, b: V)
    requires Valid(t) && existing in Keys(t) && added !in Keys(t)
    ensures Keys(Merge(t, [Entry(existing, a), Entry(added, b)])) == Keys(t) + [added]
    ensures Lookup(Merge(t, [Entry(existing, a), Entry(added, b)]), existing) == Some(a)
    ensures Lookup(Merge(t, [Entry(existing, a), Entry(added, b)]), added) == Some(b)
  {
    var src := [Entry(existing, a), Entry(added, b)];
    assert KeysOf(src) == [existing, added];
    assert Keys(Merge(t, src)) == Keys(t) + [added] by {
      MergeKeys(t, src);
      FreshTwo(Keys(t), existing, added);
    }
    assert Lookup(Merge(t, src), existing) == Some(a) by {
      MergeLookup(t, src, existing);
      FindIs(src, existing, 0);
    }
    assert Lookup(Merge(t, src), added) == Some(b) by {
      MergeLookup(t, src, added);
      FindIs(src, added, 1);
    }
  }

  lemma FreshTwo<K>(ts: seq<K>, existing: K, added: K)
    requires existing in ts && added !in ts
    ensures Fresh([existing, added], ts) == [added]
  {
    assert [added][1..] == [];
    assert Fresh([added], ts) == [added];
    assert [existing, added][1..] == [added];
  }

  // ---------------------------------------------------------------------------
  // Construction
  // ---------------------------------------------------------------------------

  /** Keyword arguments become entries in the order given. */
  lemma InitFromKeywords<K, V>(typeName: string, kwargs: seq<Entry<K, V>>)
    requires Distinct(KeysOf(kwargs))
    ensures Init(typeName, [], kwargs) == Ok(Mapping(typeName, kwargs))
    ensures Len(Init(typeName, [], kwargs).value) == |kwargs|
  {
    assert Init(typeName, [], kwargs) == Ok(Merge(Empty(typeName), kwargs));
    InsertionOrder(typeName, kwargs);
  }

  /** `OrderedMapping(n)` copies `n`'s entries in order, and the copy equals
      `n` when `n` is itself of class `OrderedMapping`. */
  lemma CopyConstruction<K, V>(n: Mapping<K, V>)
    requires Valid(n)
    ensures Init(ORDERED_MAPPING, [MappingArg(n.entries)], []) == Ok(Mapping(ORDERED_MAPPING, n.entries))
    ensures n.typeName == ORDERED_MAPPING ==> Equal(n, Some(Init(ORDERED_MAPPING, [MappingArg(n.entries)], []).value))
  {
    InsertionOrder(ORDERED_MAPPING, n.entries);
    var c := Mapping(ORDERED_MAPPING, n.entries);
    if n.typeName == ORDERED_MAPPING {
      assert c == n;
      EqualIffSame(n, c);
    }
  }

  // ---------------------------------------------------------------------------
  // repr
  // ---------------------------------------------------------------------------

  /** An empty mapping renders as `TypeName()`, a one-entry mapping as
      `TypeName(k=v)` with no comma, and every rendering is the class name,
      an opening parenthesis, the pairs and a closing parenthesis. */
  lemma ReprShape<K, V>(m: Mapping<K, V>, show: K -> string, render: V -> string)
    ensures |m.entries| == 0 ==> Repr(m, show, render) == m.typeName + "()"
    ensures |m.entries| == 1 ==> Repr(m, show, render) == m.typeName + "(" + Pair(m.entries[0], show, render) + ")"
    ensures var r := Repr(m, show, render);
      && |r| >= |m.typeName| + 2
      && r[..|m.typeName| + 1] == m.typeName + "("
      && r[|r| - 1] == ')'
  {
    var r := Repr(m, show, render);
    var head := m.typeName + "(";
    var joined := Strings.Join(Pairs(m.entries, show, render), ", ");
    assert r == head + joined + ")";
    TakeAppend(head, joined + ")");
    assert head + joined + ")" == head + (joined + ")");
    if |m.entries| == 0 {
      assert joined == "";
      assert head + ")" == m.typeName + "()";
    }
  }

  lemma TakeAppend(a: string, b: string)
    ensures (a + b)[..|a|] == a
  {
  }

  /** Appending a new key adds `, k=v` before the closing parenthesis. */
  lemma ReprAppend<K, V>(m: Mapping<K, V>, k: K, v: V, show: K -> string, render: V -> string)
    requires |m.entries| > 0 && k !in Keys(m)
    ensures var r := Repr(m, show, render);
      Repr(Set(m, k, v), show, render) == r[..|r| - 1] + ", " + Pair(Entry(k, v), show, render) + ")"
  {
    var p := Pair(Entry(k, v), show, render);
    var ps := Pairs(m.entries, show, render);
    var head := m.typeName + "(";
    var joined := Strings.Join(ps, ", ");
    var r := Repr(m, show, render);
    assert r == head + joined + ")";
    assert Pairs(Set(m, k, v).entries, show, render) == ps + [p] by {
      SetAppendsNew(m, k, v);
      PairsAppend(m.entries, Entry(k, v), show, render);
    }
    assert Strings.Join(ps + [p], ", ") == joined + ", " + p by {
      Strings.JoinAppend(ps, p, ", ");
    }
    assert r[..|r| - 1] == head + joined by {
      DropClose(head + joined);
    }
    Regroup(head, joined, ", ", p);
  }

  lemma SetAppendsNew<K, V>(m: Mapping<K, V>, k: K, v: V)
    requires k !in Keys(m)
    ensures Set(m, k, v) == Mapping(m.typeName, m.entries + [Entry(k, v)])
  {
    KeyInFind(m.entries, k);
  }

  lemma PairsAppend<K, V>(es: seq<Entry<K, V>>, e: Entry<K, V>, show: K -> string, render: V -> string)
    ensures Pairs(es + [e], show, render) == Pairs(es, show, render) + [Pair(e, show, render)]
  {
  }

  lemma DropClose(s: string)
    ensures (s + ")")[..|s|] == s
  {
  }

  lemma Regroup<T>(a: seq<T>, j: seq<T>, sep: seq<T>, p: seq<T>)
    ensures a + (j + sep + p) == a + j + sep + p
  {
  }

  /** A mapping built from distinct keys renders its pairs in insertion order. */
  lemma ReprInsertionOrder<K, V>(typeName: string, src: seq<Entry<K, V>>, show: K -> string, render: V -> string)
    requires Distinct(KeysOf(src))
    ensures Repr(Merge(Empty(typeName), src), show, render)
      == typeName + "(" + Strings.Join(Pairs(src, show, render), ", ") + ")"
  {
    InsertionOrder(typeName, src);
  }
}
