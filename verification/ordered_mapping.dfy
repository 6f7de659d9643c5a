/** `pykern.pkcollections.OrderedMapping` and `mapping_merge`.

  An `OrderedMapping` is an ordered record: its keys are distinct strings
  and iterate in the order they were (re-)inserted.  Assigning to a key that
  is present changes its value where it stands; assigning to an absent key
  appends it, so deleting a key and assigning it again moves it to the end.

  Python lets a caller reach the same store through attributes (`n.a`) and
  subscripts (`n['a']`); here both are one `Get`/`Set`/`Delete` interface
  whose `Access` argument selects which exception a missing key raises.
  The Python object is mutable; here every operation returns a new value.
 */
module OrderedMappings {
  import opened Results
  import Strings

  /** Name of the class itself; an instance of a subclass carries the
      subclass's name instead. */
  const ORDERED_MAPPING: string := "OrderedMapping"

  datatype Entry<K, V> = Entry(key: K, value: V)

  /** An instance: its concrete class name and its entries in iteration order. */
  datatype Mapping<K, V> = Mapping(typeName: string, entries: seq<Entry<K, V>>)

  /** Which Python idiom reached the store: `n[k]` or `n.k`. */
  datatype Access = Item | Attribute

  /** One positional argument of the constructor. */
  datatype Arg<K, V> =
    | MappingArg(items: seq<Entry<K, V>>)  // a dict or another OrderedMapping, in its iteration order
    | IterableArg(length: nat)          // a list, tuple or string: iterable but not indexable by key
    | ScalarArg                         // anything that cannot even be iterated

  // ---------------------------------------------------------------------------
  // Keys and the representation invariant
  // ---------------------------------------------------------------------------

  function KeysOf<K(==), V>(es: seq<Entry<K, V>>): (ks: seq<K>)
    ensures |ks| == |es|
    ensures forall i {:trigger ks[i]} :: 0 <= i < |es| ==> ks[i] == es[i].key
  {
    if |es| == 0 then [] else [es[0].key] + KeysOf(es[1..])
  }

  lemma KeysOfTail<K, V>(es: seq<Entry<K, V>>)
    requires |es| > 0
    ensures KeysOf(es) == [es[0].key] + KeysOf(es[1..])
    ensures KeysOf(es[1..]) == KeysOf(es)[1..]
  {
    assert ([es[0].key] + KeysOf(es[1..]))[1..] == KeysOf(es[1..]);
  }

  /** `[k for k in n]`: the keys in iteration order. */
  function Keys<K(==), V>(m: Mapping<K, V>): seq<K>
  {
    KeysOf(m.entries)
  }

  predicate Distinct<K(==)>(ks: seq<K>)
  {
    forall i, j | 0 <= i < j < |ks| :: ks[i] != ks[j]
  }

  /** Every key occurs once. */
  predicate Valid<K(==), V>(m: Mapping<K, V>)
  {
    Distinct(Keys(m))
  }

  /** Position of the first entry with key `k`. */
  function Find<K(==), V>(es: seq<Entry<K, V>>, k: K): (r: Option<nat>)
    ensures r.Some? ==> r.value < |es| && es[r.value].key == k
    ensures r.Some? ==> forall j :: 0 <= j < r.value ==> es[j].key != k
    ensures r.None? ==> forall j :: 0 <= j < |es| ==> es[j].key != k
  {
    if |es| == 0 then None
    else if es[0].key == k then Some(0)
    else match Find(es[1..], k)
      case Some(i) => Some(i + 1)
      case None => None
  }

  /** The value stored under `k`, if any. */
  function LookupIn<K(==), V>(es: seq<Entry<K, V>>, k: K): (r: Option<V>)
    ensures r.Some? <==> k in KeysOf(es)
  {
    KeyInFind(es, k);
    match Find(es, k)
    case Some(i) => Some(es[i].value)
    case None => None
  }

  /** A key is among the keys exactly when `Find` locates it. */
  lemma KeyInFind<K, V>(es: seq<Entry<K, V>>, k: K)
    ensures k in KeysOf(es) <==> Find(es, k).Some?
  {
    var ks := KeysOf(es);
    if k in ks {
      var j :| 0 <= j < |ks| && ks[j] == k;
      assert es[j].key == k;
    }
    match Find(es, k)
    case Some(i) => assert ks[i] == k;
    case None =>
  }

  function Lookup<K(==), V>(m: Mapping<K, V>, k: K): Option<V>
  {
    LookupIn(m.entries, k)
  }

  /** `Find` is determined by its contract: the first position holding `k`. */
  lemma FindIs<K, V>(es: seq<Entry<K, V>>, k: K, j: nat)
    requires j < |es| && es[j].key == k
    requires forall l :: 0 <= l < j ==> es[l].key != k
    ensures Find(es, k) == Some(j)
  {
  }

  lemma FindNone<K, V>(es: seq<Entry<K, V>>, k: K)
    requires forall l :: 0 <= l < |es| ==> es[l].key != k
    ensures Find(es, k) == None
  {
  }

  /** In a valid mapping the entry at position `i` is the one a lookup finds. */
  lemma LookupAt<K, V>(m: Mapping<K, V>, i: nat)
    requires Valid(m) && i < |m.entries|
    ensures Lookup(m, m.entries[i].key) == Some(m.entries[i].value)
  {
    var k := m.entries[i].key;
    forall l | 0 <= l < i
      ensures m.entries[l].key != k
    {
      assert Keys(m)[l] != Keys(m)[i];
    }
    FindIs(m.entries, k, i);
  }

  /** The exception a missing key raises through each idiom. */
  function Missing(access: Access): Error
  {
    match access
    case Item => KeyError
    case Attribute => AttributeError
  }

  // ---------------------------------------------------------------------------
  // Construction, access and update
  // ---------------------------------------------------------------------------

  function Empty<K(==), V>(typeName: string): Mapping<K, V>
  {
    Mapping(typeName, [])
  }

  /** `len(n)`. */
  function Len<K(==), V>(m: Mapping<K, V>): nat
  {
    |m.entries|
  }

  /** `n[k]` or `n.k`: the stored value, or the idiom's missing-key error;
      never a default. */
  function Get<K(==), V>(m: Mapping<K, V>, k: K, access: Access): (r: Result<V>)
    ensures r.Ok? <==> k in Keys(m)
    ensures r.Ok? ==> Entry(k, r.value) in m.entries && Lookup(m, k) == Some(r.value)
    ensures r.Err? ==> r.error == Missing(access) && Lookup(m, k) == None
  {
    KeyInFind(m.entries, k);
    match Find(m.entries, k)
    case Some(i) => Ok(m.entries[i].value)
    case None => Err(Missing(access))
  }

  /** `n[k] = v` or `n.k = v`: overwrite in place when `k` is present,
      append at the end otherwise. */
  function Set<K(==), V>(m: Mapping<K, V>, k: K, v: V): (r: Mapping<K, V>)
    ensures r.typeName == m.typeName
    ensures k in Keys(m) ==> Keys(r) == Keys(m)
    ensures k !in Keys(m) ==> Keys(r) == Keys(m) + [k]
    ensures Valid(m) ==> Valid(r)
    ensures Lookup(r, k) == Some(v)
  {
    match Find(m.entries, k)
    case Some(i) => SetAt(m, i, k, v); Mapping(m.typeName, m.entries[i := Entry(k, v)])
    case None => SetAppend(m, k, v); Mapping(m.typeName, m.entries + [Entry(k, v)])
  }

  lemma SetAt<K, V>(m: Mapping<K, V>, i: nat, k: K, v: V)
    requires Find(m.entries, k) == Some(i)
    ensures var r := Mapping(m.typeName, m.entries[i := Entry(k, v)]);
      && Keys(r) == Keys(m)
      && Lookup(r, k) == Some(v)
      && forall k' :: k' != k ==> Lookup(r, k') == Lookup(m, k')
  {
    var r := Mapping(m.typeName, m.entries[i := Entry(k, v)]);
    assert Keys(r) == Keys(m);
    FindIs(r.entries, k, i);
    forall k' | k' != k
      ensures Lookup(r, k') == Lookup(m, k')
    {
      match Find(m.entries, k')
      case Some(j) => FindIs(r.entries, k', j);
      case None => FindNone(r.entries, k');
    }
  }

  lemma SetAppend<K, V>(m: Mapping<K, V>, k: K, v: V)
    requires Find(m.entries, k) == None
    ensures var r := Mapping(m.typeName, m.entries + [Entry(k, v)]);
      && Keys(r) == Keys(m) + [k]
      && (Valid(m) ==> Valid(r))
      && Lookup(r, k) == Some(v)
      && forall k' :: k' != k ==> Lookup(r, k') == Lookup(m, k')
  {
    var r := Mapping(m.typeName, m.entries + [Entry(k, v)]);
    assert Keys(r) == Keys(m) + [k];
    FindIs(r.entries, k, |m.entries|);
    forall k' | k' != k
      ensures Lookup(r, k') == Lookup(m, k')
    {
      match Find(m.entries, k')
      case Some(j) => FindIs(r.entries, k', j);
      case None => FindNone(r.entries, k');
    }
  }

  /** `ks` with every occurrence of `k` removed, the rest in order. */
  function Without<K(==)>(ks: seq<K>, k: K): (r: seq<K>)
    ensures k !in r
  {
    if |ks| == 0 then []
    else if ks[0] == k then Without(ks[1..], k)
    else [ks[0]] + Without(ks[1..], k)
  }

  lemma {:induction false} WithoutConcat<K>(a: seq<K>, b: seq<K>, k: K)
    ensures Without(a + b, k) == Without(a, k) + Without(b, k)
  {
    if |a| > 0 {
      WithoutConcat(a[1..], b, k);
      assert (a + b)[1..] == a[1..] + b;
    } else {
      assert a + b == b;
    }
  }

  lemma {:induction false} WithoutAbsent<K>(ks: seq<K>, k: K)
    requires k !in ks
    ensures Without(ks, k) == ks
  {
    if |ks| > 0 {
      WithoutAbsent(ks[1..], k);
      assert ks == [ks[0]] + ks[1..];
    }
  }

  /** `del n[k]` or `del n.k`: removes the entry and closes the gap, or
      raises the idiom's missing-key error. */
  function Delete<K(==), V>(m: Mapping<K, V>, k: K, access: Access): (r: Result<Mapping<K, V>>)
    ensures r.Ok? <==> k in Keys(m)
    ensures r.Err? ==> r.error == Missing(access)
    ensures r.Ok? ==> r.value.typeName == m.typeName
    ensures r.Ok? && Valid(m) ==> Valid(r.value) && Keys(r.value) == Without(Keys(m), k)
    ensures r.Ok? && Valid(m) ==> Lookup(r.value, k) == None
  {
    KeyInFind(m.entries, k);
    match Find(m.entries, k)
    case Some(i) =>
      var d := Mapping(m.typeName, m.entries[..i] + m.entries[i + 1..]);
      if Valid(m) then DeleteAt(m, i); Ok(d) else Ok(d)
    case None => Err(Missing(access))
  }

  /** Assigning one key leaves the value of every other key alone. */
  lemma SetFrame<K, V>(m: Mapping<K, V>, k: K, v: V, k': K)
    requires k' != k
    ensures Lookup(Set(m, k, v), k') == Lookup(m, k')
  {
    match Find(m.entries, k)
    case Some(i) => SetAt(m, i, k, v);
    case None => SetAppend(m, k, v);
  }

  /** Deleting one key leaves the value of every other key alone. */
  lemma DeleteFrame<K, V>(m: Mapping<K, V>, k: K, access: Access, k': K)
    requires Valid(m) && k in Keys(m) && k' != k
    ensures Lookup(Delete(m, k, access).value, k') == Lookup(m, k')
  {
    DeleteAt(m, Find(m.entries, k).value);
  }

  lemma DeleteAt<K, V>(m: Mapping<K, V>, i: nat)
    requires Valid(m) && i < |m.entries|
    ensures var d := Mapping(m.typeName, m.entries[..i] + m.entries[i + 1..]);
      && Valid(d)
      && Keys(d) == Without(Keys(m), m.entries[i].key)
      && Lookup(d, m.entries[i].key) == None
      && forall k' :: k' != m.entries[i].key ==> Lookup(d, k') == Lookup(m, k')
  {
    DeleteAtKeys(m, i);
    DeleteAtLookup(m, i);
  }

  lemma DeleteAtKeys<K, V>(m: Mapping<K, V>, i: nat)
    requires Valid(m) && i < |m.entries|
    ensures var d := Mapping(m.typeName, m.entries[..i] + m.entries[i + 1..]);
      && Keys(d) == Keys(m)[..i] + Keys(m)[i + 1..]
      && Valid(d)
      && Keys(d) == Without(Keys(m), m.entries[i].key)
  {
    var ks := Keys(m);
    var d := Mapping(m.typeName, m.entries[..i] + m.entries[i + 1..]);
    assert Keys(d) == ks[..i] + ks[i + 1..];
    assert Valid(d) by {
      forall p, q | 0 <= p < q < |Keys(d)|
        ensures Keys(d)[p] != Keys(d)[q]
      {
        var p' := if p < i then p else p + 1;
        var q' := if q < i then q else q + 1;
        assert Keys(d)[p] == ks[p'] && Keys(d)[q] == ks[q'];
      }
    }
    assert ks[i] == m.entries[i].key;
    WithoutAt(ks, i);
  }

  /** Removing the key at `i` from a duplicate-free sequence closes the gap. */
  lemma {:induction false} WithoutAt<K>(ks: seq<K>, i: nat)
    requires Distinct(ks) && i < |ks|
    ensures Without(ks, ks[i]) == ks[..i] + ks[i + 1..]
    decreases i
  {
    var k := ks[i];
    DistinctTail(ks);
    if i == 0 {
      WithoutAbsent(ks[1..], k);
    } else {
      assert ks[0] != k;
      assert ks[1..][i - 1] == k;
      WithoutAt(ks[1..], i - 1);
      assert ks[1..][..i - 1] == ks[1..i] && ks[1..][i..] == ks[i + 1..];
      assert [ks[0]] + ks[1..i] == ks[..i];
    }
  }

  /** The tail of a duplicate-free sequence is duplicate-free and lacks the
      head. */
  lemma DistinctTail<K>(ks: seq<K>)
    requires Distinct(ks) && |ks| > 0
    ensures Distinct(ks[1..]) && ks[0] !in ks[1..]
  {
    forall j | 0 <= j < |ks| - 1 ensures ks[1..][j] != ks[0] {
      assert ks[1..][j] == ks[j + 1];
    }
  }

  lemma DeleteAtLookup<K, V>(m: Mapping<K, V>, i: nat)
    requires Valid(m) && i < |m.entries|
    ensures var d := Mapping(m.typeName, m.entries[..i] + m.entries[i + 1..]);
      && Lookup(d, m.entries[i].key) == None
      && forall k' :: k' != m.entries[i].key ==> Lookup(d, k') == Lookup(m, k')
  {
    var k := m.entries[i].key;
    var d := Mapping(m.typeName, m.entries[..i] + m.entries[i + 1..]);
    forall k' | k' != k
      ensures Lookup(d, k') == Lookup(m, k')
    {
      match Find(m.entries, k')
      case Some(j) =>
        if j < i {
          FindIs(d.entries, k', j);
        } else {
          FindIs(d.entries, k', j - 1);
        }
      case None => FindNone(d.entries, k');
    }
    forall l | 0 <= l < |d.entries|
      ensures d.entries[l].key != k
    {
      if l < i {
        assert Keys(m)[l] != Keys(m)[i];
      } else {
        assert Keys(m)[l + 1] != Keys(m)[i];
      }
    }
    FindNone(d.entries, k);
  }

  /** `mapping_merge(target, source)`: assigns every source entry into the
      target, in the source's iteration order. */
  function Merge<K(==), V>(target: Mapping<K, V>, source: seq<Entry<K, V>>): (r: Mapping<K, V>)
    ensures |source| == 0 ==> r == target
    ensures r.typeName == target.typeName
    ensures Valid(target) ==> Valid(r)
    decreases |source|
  {
    if |source| == 0 then target
    else Merge(Set(target, source[0].key, source[0].value), source[1..])
  }

  /** `OrderedMapping(*args, **kwargs)` for the class named `typeName`. */
  function Init<K(==), V>(typeName: string, args: seq<Arg<K, V>>, kwargs: seq<Entry<K, V>>): (r: Result<Mapping<K, V>>)
    ensures |args| > 1 ==> r == Err(AssertionError)
    ensures |args| == 1 && args[0].ScalarArg? ==> r == Err(TypeError)
    ensures |args| == 1 && args[0].IterableArg? && args[0].length > 0 ==> r == Err(TypeError)
    ensures r.Ok? <==> |args| == 0 || (|args| == 1 && (args[0].MappingArg? || args[0] == IterableArg(0)))
    ensures r.Ok? ==> r.value.typeName == typeName && Valid(r.value)
    ensures r.Err? ==> r.error == AssertionError || r.error == TypeError
  {
    if |args| > 1 then Err(AssertionError)
    else if |args| == 0 then Ok(Merge(Empty(typeName), kwargs))
    else match args[0]
      case MappingArg(items) => Ok(Merge(Merge(Empty(typeName), items), kwargs))
      case IterableArg(n) => if n == 0 then Ok(Merge(Empty(typeName), kwargs)) else Err(TypeError)
      case ScalarArg => Err(TypeError)
  }

  /** `n == other`; `other` is `None` or an instance of some class. */
  predicate Equal<K(==), V(==)>(m: Mapping<K, V>, other: Option<Mapping<K, V>>)
  {
    && other.Some?
    && m.typeName == other.value.typeName
    && Keys(m) == Keys(other.value)
    && forall k :: k in Keys(m) ==> Lookup(m, k) == Lookup(other.value, k)
  }

  /** The text `k=v` of one entry, given how a value renders. */
  function Pair<K(==), V>(e: Entry<K, V>, show: K -> string, render: V -> string): string
  {
    show(e.key) + "=" + render(e.value)
  }

  function Pairs<K(==), V>(es: seq<Entry<K, V>>, show: K -> string, render: V -> string): (r: seq<string>)
    ensures |r| == |es|
    ensures forall i :: 0 <= i < |es| ==> r[i] == Pair(es[i], show, render)
  {
    if |es| == 0 then [] else [Pair(es[0], show, render)] + Pairs(es[1..], show, render)
  }

  /** `repr(n)`: `TypeName(k1=v1, k2=v2)` in iteration order. */
  function Repr<K(==), V>(m: Mapping<K, V>, show: K -> string, render: V -> string): string
  {
    m.typeName + "(" + Strings.Join(Pairs(m.entries, show, render), ", ") + ")"
  }
}
