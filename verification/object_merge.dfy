/**
 * `LangUtils.objectMerge(obj1, obj2)`: every own property of `obj2` is
 * copied onto `obj1`, which is returned.
 *
 * An object is its own enumerable properties and those it inherits through
 * its prototype chain; `for (k in obj2)` visits both, and the
 * `hasOwnProperty` test keeps the own ones.  Assignment creates or
 * overwrites an own property of `obj1` and leaves its prototype alone.  The
 * order in which `for ... in` visits the keys is left open: the loop below
 * takes them in any order and the result is the same.
 */
module ObjectMerge {
  import opened JsValues

  datatype Obj<V> = Obj(own: map<JsString, V>, inherited: map<JsString, V>)

  /** `obj1` with the own properties of `obj2` written over its own. */
  function Merge<V>(obj1: Obj<V>, obj2: Obj<V>): (r: Obj<V>)
    ensures r.own.Keys == obj1.own.Keys + obj2.own.Keys
    ensures forall k :: k in obj2.own ==> r.own[k] == obj2.own[k]
    ensures forall k :: k in obj1.own && k !in obj2.own ==> r.own[k] == obj1.own[k]
    ensures r.inherited == obj1.inherited
  {
    obj1.(own := obj1.own + obj2.own)
  }

  /** The loop of the source, visiting the enumerable keys of `obj2` in an arbitrary order. */
  method ObjectMerge<V>(obj1: Obj<V>, obj2: Obj<V>) returns (r: Obj<V>)
    ensures r == Merge(obj1, obj2)
  {
    var keys := obj2.own.Keys + obj2.inherited.Keys;
    r := obj1;
    while keys != {}
      invariant keys <= obj2.own.Keys + obj2.inherited.Keys
      invariant r.inherited == obj1.inherited
      invariant r.own.Keys == obj1.own.Keys + (obj2.own.Keys - keys)
      invariant forall k :: k in r.own ==> r.own[k] == if k in obj2.own && k !in keys then obj2.own[k] else obj1.own[k]
      decreases keys
    {
      var k :| k in keys;
      if k in obj2.own {
        r := r.(own := r.own[k := obj2.own[k]]);
      }
      keys := keys - {k};
    }
  }

  /** Merging the same object a second time changes nothing. */
  lemma MergeIdempotent<V>(obj1: Obj<V>, obj2: Obj<V>)
    ensures Merge(Merge(obj1, obj2), obj2) == Merge(obj1, obj2)
  {
    var once, twice := Merge(obj1, obj2), Merge(Merge(obj1, obj2), obj2);
    assert twice.own == once.own;
  }

  /** Inherited properties of `obj2` are not copied: a key only `obj2`'s prototype has stays absent. */
  lemma InheritedNotCopied<V>(obj1: Obj<V>, obj2: Obj<V>, k: JsString)
    requires k in obj2.inherited && k !in obj2.own && k !in obj1.own
    ensures k !in Merge(obj1, obj2).own
  {
  }

  /** Merging an object with no own properties returns the first one unchanged. */
  lemma MergeEmpty<V>(obj1: Obj<V>, obj2: Obj<V>)
    requires obj2.own == map[]
    ensures Merge(obj1, obj2) == obj1
  {
    assert obj1.own + obj2.own == obj1.own;
  }
}
