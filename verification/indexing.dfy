/** Indexing and de-duplication of stored documents by a key: one entry per
    distinct key, the document seen last winning. */
module Indexing {
  import opened Results
  import opened Values

  /** The field that identifies a stored document. */
  const ID: string := "_id"

  /** Position `i` holds the last element of `things` whose key is `k`. */
  ghost predicate LastWithKey<T, K>(things: seq<T>, key: T -> K, k: K, i: int) {
    && 0 <= i < |things|
    && key(things[i]) == k
    && forall j | i < j < |things| :: key(things[j]) != k
  }

  /** The distinct keys of `things`. */
  ghost function KeysOf<T, K>(things: seq<T>, key: T -> K): (keys: set<K>) {
    set i | 0 <= i < |things| :: key(things[i])
  }

  /** A dictionary built from `things` in order, each element stored under
      its key, so that a later element replaces an earlier one. */
  function IndexBy<T, K(==)>(things: seq<T>, key: T -> K): (index: map<K, T>)
    ensures index.Keys == KeysOf(things, key)
    ensures forall k | k in index :: exists i :: LastWithKey(things, key, k, i) && index[k] == things[i]
    decreases |things|
  {
    if |things| == 0 then map[]
    else
      var init := things[..|things| - 1];
      var last := things[|things| - 1];
      var index := IndexBy(init, key)[key(last) := last];
      assert KeysOf(things, key) == KeysOf(init, key) + {key(last)} by {
        forall k | k in KeysOf(things, key) ensures k in KeysOf(init, key) + {key(last)} {
          var i :| 0 <= i < |things| && key(things[i]) == k;
          if i < |things| - 1 {
            assert init[i] == things[i];
          }
        }
        forall k | k in KeysOf(init, key) ensures k in KeysOf(things, key) {
          var i :| 0 <= i < |init| && key(init[i]) == k;
          assert things[i] == init[i];
        }
      }
      forall k | k in index ensures exists i :: LastWithKey(things, key, k, i) && index[k] == things[i] {
        if k == key(last) {
          assert LastWithKey(things, key, k, |things| - 1);
        } else {
          var i :| LastWithKey(init, key, k, i) && IndexBy(init, key)[k] == init[i];
          assert LastWithKey(things, key, k, i);
        }
      }
      index
  }

  /** Why indexing documents by `_id` fails: position of the first document
      that has no `_id` field. */
  datatype IndexError = MissingId(position: nat)

  /** The `_id` of a document; a document without one is never indexed. */
  function IdOf(doc: Dict): (id: Value) {
    Get(doc, ID, Null)
  }

  /** Position of the first document without an `_id`, or `|docs|` when
      every document has one. */
  function FirstWithoutId(docs: seq<Dict>): (p: nat)
    ensures p <= |docs|
    ensures p < |docs| ==> ID !in docs[p]
    ensures forall i | 0 <= i < p :: ID in docs[i]
  {
    if |docs| == 0 then 0
    else if ID !in docs[0] then 0
    else 1 + FirstWithoutId(docs[1..])
  }

  /** Stored documents indexed by their `_id`; the first document without
      an `_id` aborts with its position. */
  function IndexById(docs: seq<Dict>): (r: Result<map<Value, Dict>, IndexError>)
    ensures r.Success? <==> forall i | 0 <= i < |docs| :: ID in docs[i]
    ensures r.Success? ==> r.value.Keys == set i | 0 <= i < |docs| :: docs[i][ID]
    ensures r.Success? ==> forall id | id in r.value ::
      exists i :: LastWithKey(docs, IdOf, id, i) && r.value[id] == docs[i]
    ensures r.Failure? ==> var p := r.error.position;
      && p < |docs| && ID !in docs[p]
      && forall i | 0 <= i < p :: ID in docs[i]
  {
    var p := FirstWithoutId(docs);
    if p < |docs| then Failure(MissingId(p))
    else
      var index := IndexBy(docs, IdOf);
      assert index.Keys == set i | 0 <= i < |docs| :: docs[i][ID] by {
        assert forall i | 0 <= i < |docs| :: IdOf(docs[i]) == docs[i][ID];
      }
      Success(index)
  }

  /** One element per distinct key, the last one with that key. The Python
      implementation returns a list in the dictionary's order, which the
      model leaves unspecified by returning a set. */
  function DedupeBy<T(==), K(==)>(things: seq<T>, key: T -> K): (r: set<T>)
    ensures forall x | x in r :: exists i :: LastWithKey(things, key, key(x), i) && x == things[i]
    ensures forall i | 0 <= i < |things| && LastWithKey(things, key, key(things[i]), i) :: things[i] in r
  {
    var index := IndexBy(things, key);
    forall i | 0 <= i < |things| && LastWithKey(things, key, key(things[i]), i) ensures things[i] in index.Values {
      var k := key(things[i]);
      assert k in KeysOf(things, key);
      var j :| LastWithKey(things, key, k, j) && index[k] == things[j];
      assert i == j;
    }
    index.Values
  }

  /** De-duplication keeps exactly as many elements as there are distinct
      keys. */
  lemma {:induction false} DedupeByCount<T, K>(things: seq<T>, key: T -> K)
    ensures |DedupeBy(things, key)| == |KeysOf(things, key)|
  {
    var index := IndexBy(things, key);
    var r := DedupeBy(things, key);
    assert r == index.Values;
    KeyedValuesCount(index, key);
  }

  /** A dictionary that files every value under that value's own key has
      as many distinct values as keys. */
  lemma {:induction false} KeyedValuesCount<T, K>(index: map<K, T>, key: T -> K)
    requires forall k | k in index :: key(index[k]) == k
    ensures |index.Values| == |index.Keys|
    decreases |index.Keys|
  {
    if |index.Keys| != 0 {
      var k :| k in index.Keys;
      var rest := map k' | k' in index && k' != k :: index[k'];
      assert rest.Keys == index.Keys - {k};
      assert rest.Values == index.Values - {index[k]} by {
        forall v | v in index.Values ensures v in rest.Values || v == index[k] {
          var k' :| k' in index && index[k'] == v;
          if k' != k {
            assert rest[k'] == v;
          }
        }
        forall v | v in rest.Values ensures v in index.Values && v != index[k] {
          var k' :| k' in rest && rest[k'] == v;
          assert index[k'] == v;
        }
      }
      KeyedValuesCount(rest, key);
    }
  }

  /** The documents of openag's test suite: two share `_id` "foo". */
  function ExampleDocs(): (docs: seq<Dict>) {
    [ map[ID := Str("foo"), "type" := Str("a")],
      map[ID := Str("foo"), "type" := Str("b")],
      map[ID := Str("bar"), "type" := Str("c")] ]
  }

  /** Every example document has an `_id`; "foo" is filed last by the
      second document. */
  lemma {:induction false} ExampleIndex()
    ensures FirstWithoutId(ExampleDocs()) == 3
    ensures IndexBy(ExampleDocs(), IdOf) == map[Str("foo") := ExampleDocs()[1], Str("bar") := ExampleDocs()[2]]
  {
  }

  /** Indexing the example keeps two documents, and "foo" is the later one. */
  lemma {:induction false} IndexByIdExample()
    ensures var r := IndexById(ExampleDocs());
      && r.Success?
      && |r.value| == 2
      && Str("foo") in r.value && "type" in r.value[Str("foo")]
      && r.value[Str("foo")]["type"] == Str("b")
  {
    ExampleIndex();
    assert map[Str("foo") := ExampleDocs()[1], Str("bar") := ExampleDocs()[2]].Keys == {Str("foo"), Str("bar")};
  }

  /** The example's ids are "foo" and "bar". */
  lemma {:induction false} ExampleKeys()
    ensures IndexBy(ExampleDocs(), IdOf).Keys == {Str("foo"), Str("bar")}
  {
    ExampleIndex();
    assert map[Str("foo") := ExampleDocs()[1], Str("bar") := ExampleDocs()[2]].Keys == {Str("foo"), Str("bar")};
  }

  /** De-duplicating the example by `_id` keeps two documents. */
  lemma {:induction false} DedupeByExample()
    ensures |DedupeBy(ExampleDocs(), IdOf)| == 2
  {
    var foo, bar := Str("foo"), Str("bar");
    ExampleKeys();
    DedupeByIndexCount(ExampleDocs(), IdOf);
    assert foo != bar by {
      assert foo.s[0] == 'f' && bar.s[0] == 'b';
    }
    assert |{foo, bar}| == 2;
  }

  /** De-duplication keeps one element per entry of the index it is built
      from. */
  lemma {:induction false} DedupeByIndexCount<T, K>(things: seq<T>, key: T -> K)
    ensures |DedupeBy(things, key)| == |IndexBy(things, key).Keys|
  {
    DedupeByCount(things, key);
  }
}
