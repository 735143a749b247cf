/**
 * The JSON-like values that stream in as chat deltas, and lodash's
 * `mergeWith(object, source, customizer)` with the customiser the chat
 * handler passes: when both sides are strings they concatenate, and
 * everything else falls back to lodash's own deep merge.
 *
 * lodash mutates `object` in place; here a merge returns the new value, and
 * the in-place walk over the delta's keys is `Accumulator.Absorb`.
 */
module Json {
  import opened Text

  datatype Json =
    | JUndef                          // `undefined`, also what a missing key reads as
    | JNull
    | JBool(b: bool)
    | JNum(n: int)
    | JStr(s: string)
    | JArr(items: seq<Json>)
    | JObj(fields: map<string, Json>)

  function Max(a: nat, b: nat): nat {
    if a < b then b else a
  }

  /** `object[key]`: a missing key reads as `undefined`. */
  function Get(m: map<string, Json>, k: string): Json {
    if k in m then m[k] else JUndef
  }

  /** `array[i]`: an index past the end reads as `undefined`. */
  function ItemAt(a: seq<Json>, i: nat): Json {
    if i < |a| then a[i] else JUndef
  }

  /**
   * The object a delta object is merged into: the existing object, or a fresh
   * `{}` when the existing value is not an object (lodash's `initCloneObject`).
   */
  function Fields(v: Json): map<string, Json> {
    if v.JObj? then v.fields else map[]
  }

  /** The array a delta array is merged into: the existing array, or a fresh `[]`. */
  function Items(v: Json): seq<Json> {
    if v.JArr? then v.items else []
  }

  /**
   * lodash handles an object meeting an array (either way round) through
   * array-likeness and prototype rules; the model leaves those cases out by
   * requiring that, wherever both sides hold containers, they are of one kind.
   */
  predicate Compatible(acc: Json, d: Json)
    decreases d, 1
  {
    match d
    case JObj(dm) => !acc.JArr? && FieldsCompatible(Fields(acc), dm)
    case JArr(ds) => !acc.JObj? && ItemsCompatible(Items(acc), ds)
    case _ => true
  }

  predicate FieldsCompatible(acc: map<string, Json>, dm: map<string, Json>)
    decreases JObj(dm), 0
  {
    forall k :: k in dm ==> Compatible(Get(acc, k), dm[k])
  }

  predicate ItemsCompatible(acc: seq<Json>, ds: seq<Json>)
    decreases JArr(ds), 0
  {
    forall i :: 0 <= i < |ds| ==> Compatible(ItemAt(acc, i), ds[i])
  }

  /**
   * The value lodash assigns at a key whose current value is `acc` when the
   * delta holds `d` there (`acc` is `JUndef` for a missing key):
   * a delta object or array is merged into the existing container of its kind
   * (or into a fresh one), two strings concatenate through the customiser,
   * `undefined` keeps what is there, and any other delta value replaces it.
   */
  function Merge(acc: Json, d: Json): Json
    requires Compatible(acc, d)
    decreases d, 1
  {
    match d
    case JObj(dm) => JObj(MergeFields(Fields(acc), dm))
    case JArr(ds) => JArr(MergeItems(Items(acc), ds))
    case JStr(t) => if acc.JStr? then JStr(acc.s + t) else d
    case JUndef => acc
    case _ => d
  }

  /** Key-wise merge: every key of either side is kept, the delta's keys merged. */
  function MergeFields(acc: map<string, Json>, dm: map<string, Json>): (r: map<string, Json>)
    requires FieldsCompatible(acc, dm)
    ensures r.Keys == acc.Keys + dm.Keys
    decreases JObj(dm), 0
  {
    map k | k in acc.Keys + dm.Keys :: if k in dm then Merge(Get(acc, k), dm[k]) else acc[k]
  }

  /** Index-wise merge: the result is as long as the longer side. */
  function MergeItems(acc: seq<Json>, ds: seq<Json>): (r: seq<Json>)
    requires ItemsCompatible(acc, ds)
    ensures |r| == Max(|acc|, |ds|)
    decreases JArr(ds), 0
  {
    seq(Max(|acc|, |ds|), i requires 0 <= i < Max(|acc|, |ds|) =>
      if i < |ds| then Merge(ItemAt(acc, i), ds[i]) else acc[i])
  }

  /** Merging at a key or index reads the two sides there. */
  lemma GetMergeFields(acc: map<string, Json>, dm: map<string, Json>, k: string)
    requires FieldsCompatible(acc, dm)
    ensures Compatible(Get(acc, k), Get(dm, k))
    ensures Get(MergeFields(acc, dm), k) == Merge(Get(acc, k), Get(dm, k))
  {
  }

  lemma ItemAtMergeItems(acc: seq<Json>, ds: seq<Json>, i: nat)
    requires ItemsCompatible(acc, ds)
    ensures Compatible(ItemAt(acc, i), ItemAt(ds, i))
    ensures ItemAt(MergeItems(acc, ds), i) == Merge(ItemAt(acc, i), ItemAt(ds, i))
  {
  }

  /** One step of a path into a value: an object key or an array index. */
  datatype Step = Key(k: string) | Index(i: nat)

  /** The value found by following `path` from `v`; `undefined` once the path leaves the value. */
  function At(v: Json, path: seq<Step>): Json
    decreases |path|
  {
    if |path| == 0 then v
    else match path[0]
      case Key(k) => if v.JObj? then At(Get(v.fields, k), path[1..]) else JUndef
      case Index(i) => if v.JArr? then At(ItemAt(v.items, i), path[1..]) else JUndef
  }

  /** Every proper prefix of `path` leads, in `d`, to a container of the kind the next step needs. */
  predicate Along(d: Json, path: seq<Step>)
    decreases |path|
  {
    |path| == 0 ||
    match path[0]
    case Key(k) => d.JObj? && Along(Get(d.fields, k), path[1..])
    case Index(i) => d.JArr? && Along(ItemAt(d.items, i), path[1..])
  }

  lemma {:induction false} AtUndef(path: seq<Step>)
    ensures At(JUndef, path) == JUndef
  {
  }

  /**
   * Merge is pointwise along the delta: at the end of any path that runs
   * through the delta's containers, the merged value is the merge of what the
   * two sides hold there. This is the customiser applying "at any depth".
   */
  lemma {:induction false} MergeAt(acc: Json, d: Json, path: seq<Step>)
    requires Compatible(acc, d) && Along(d, path)
    ensures Compatible(At(acc, path), At(d, path))
    ensures At(Merge(acc, d), path) == Merge(At(acc, path), At(d, path))
    decreases |path|
  {
    if |path| > 0 {
      var rest := path[1..];
      match path[0]
      case Key(k) =>
        var a := Get(Fields(acc), k);
        var b := Get(d.fields, k);
        GetMergeFields(Fields(acc), d.fields, k);
        AtUndef(rest);
        assert At(acc, path) == At(a, rest);
        MergeAt(a, b, rest);
      case Index(i) =>
        var a := ItemAt(Items(acc), i);
        var b := ItemAt(d.items, i);
        ItemAtMergeItems(Items(acc), d.items, i);
        AtUndef(rest);
        assert At(acc, path) == At(a, rest);
        MergeAt(a, b, rest);
    }
  }

  /** Where both sides hold strings, at any depth, the result is the accumulated string followed by the delta's. */
  lemma MergeConcatAt(acc: Json, d: Json, path: seq<Step>, a: string, b: string)
    requires Compatible(acc, d) && Along(d, path)
    requires At(acc, path) == JStr(a) && At(d, path) == JStr(b)
    ensures At(Merge(acc, d), path) == JStr(a + b)
  {
    MergeAt(acc, d, path);
  }

  /** What the delta leaves `undefined` (or does not have) keeps its accumulated value. */
  lemma MergeKeepsAt(acc: Json, d: Json, path: seq<Step>)
    requires Compatible(acc, d) && Along(d, path) && At(d, path) == JUndef
    ensures At(Merge(acc, d), path) == At(acc, path)
  {
    MergeAt(acc, d, path);
  }

  /**
   * A delta scalar, `null` included, replaces what is there, and so does a
   * delta string where the accumulated value is not a string.
   */
  lemma MergeReplacesAt(acc: Json, d: Json, path: seq<Step>)
    requires Compatible(acc, d) && Along(d, path)
    requires At(d, path).JNull? || At(d, path).JBool? || At(d, path).JNum?
             || (At(d, path).JStr? && !At(acc, path).JStr?)
    ensures At(Merge(acc, d), path) == At(d, path)
  {
    MergeAt(acc, d, path);
  }

  /** A key the accumulator lacks takes the delta's value as it is (a clone, for containers). */
  lemma {:induction false} MergeIntoNothing(d: Json)
    ensures Compatible(JUndef, d) && Merge(JUndef, d) == d
    decreases d
  {
    match d
    case JObj(dm) =>
      forall k | k in dm
        ensures Compatible(JUndef, dm[k]) && Merge(JUndef, dm[k]) == dm[k]
      {
        MergeIntoNothing(dm[k]);
      }
      assert MergeFields(map[], dm) == dm;
    case JArr(ds) =>
      forall i | 0 <= i < |ds|
        ensures Compatible(JUndef, ds[i]) && Merge(JUndef, ds[i]) == ds[i]
      {
        MergeIntoNothing(ds[i]);
      }
      assert MergeItems([], ds) == ds;
    case _ =>
  }

  /** JavaScript truthiness, as `response.tool_calls ? … : …` tests it. */
  predicate Truthy(v: Json) {
    match v
    case JUndef => false
    case JNull => false
    case JBool(b) => b
    case JNum(n) => n != 0
    case JStr(s) => s != ""
    case JArr(_) => true
    case JObj(_) => true
  }

  // ---------------------------------------------------------------------
  // A stream of deltas folded into the response, in arrival order
  // ---------------------------------------------------------------------

  /** Every delta of the stream is compatible with what has been merged before it. */
  ghost predicate StreamCompatible(acc: map<string, Json>, ds: seq<map<string, Json>>)
    decreases |ds|, 1
  {
    |ds| == 0 ||
    (StreamCompatible(acc, ds[..|ds| - 1]) && FieldsCompatible(Fold(acc, ds[..|ds| - 1]), ds[|ds| - 1]))
  }

  /** The response after merging `ds` into `acc`, one delta after the other. */
  ghost function Fold(acc: map<string, Json>, ds: seq<map<string, Json>>): map<string, Json>
    requires StreamCompatible(acc, ds)
    decreases |ds|, 2
  {
    if |ds| == 0 then acc
    else MergeFields(Fold(acc, ds[..|ds| - 1]), ds[|ds| - 1])
  }

  /** A compatible stream stays compatible when cut short. */
  lemma {:induction false} StreamCompatiblePrefix(acc: map<string, Json>, ds: seq<map<string, Json>>, n: nat)
    requires StreamCompatible(acc, ds) && n <= |ds|
    ensures StreamCompatible(acc, ds[..n])
    decreases |ds|
  {
    if n < |ds| {
      assert ds[..|ds| - 1][..n] == ds[..n];
      StreamCompatiblePrefix(acc, ds[..|ds| - 1], n);
    } else {
      assert ds[..n] == ds;
    }
  }

  /** `undefined` or a string: a field the stream can only append to. */
  predicate Textual(v: Json) {
    v.JUndef? || v.JStr?
  }

  function TextOf(v: Json): string {
    if v.JStr? then v.s else ""
  }

  /** The text the deltas carry at key `k`, in arrival order. */
  function Texts(ds: seq<map<string, Json>>, k: string): string
    decreases |ds|
  {
    if |ds| == 0 then "" else Texts(ds[..|ds| - 1], k) + TextOf(Get(ds[|ds| - 1], k))
  }

  /**
   * A field that the accumulator and every delta hold as a string or not at
   * all (the streamed `content`, say) ends up as the accumulated text followed
   * by every delta's text in arrival order.
   */
  lemma {:induction false} StreamedText(acc: map<string, Json>, ds: seq<map<string, Json>>, k: string)
    requires StreamCompatible(acc, ds)
    requires Textual(Get(acc, k)) && forall i :: 0 <= i < |ds| ==> Textual(Get(ds[i], k))
    ensures Textual(Get(Fold(acc, ds), k))
    ensures TextOf(Get(Fold(acc, ds), k)) == TextOf(Get(acc, k)) + Texts(ds, k)
    decreases |ds|
  {
    if |ds| > 0 {
      var init := ds[..|ds| - 1];
      assert forall i :: 0 <= i < |init| ==> init[i] == ds[i];
      StreamedText(acc, init, k);
      StreamedTextStep(acc, ds, k, init);
    }
  }

  lemma StreamedTextStep(acc: map<string, Json>, ds: seq<map<string, Json>>, k: string, init: seq<map<string, Json>>)
    requires |ds| > 0 && StreamCompatible(acc, ds) && init == ds[..|ds| - 1]
    requires Textual(Get(ds[|ds| - 1], k)) && Textual(Get(Fold(acc, init), k))
    requires TextOf(Get(Fold(acc, init), k)) == TextOf(Get(acc, k)) + Texts(init, k)
    ensures Textual(Get(Fold(acc, ds), k))
    ensures TextOf(Get(Fold(acc, ds), k)) == TextOf(Get(acc, k)) + Texts(ds, k)
  {
    var last := ds[|ds| - 1];
    var before := Fold(acc, init);
    FoldLast(acc, ds, init, last);
    TextsLast(ds, k, init, last);
    AppendText(before, last, k);
    AppendAssoc(TextOf(Get(acc, k)), Texts(init, k), TextOf(Get(last, k)));
  }

  lemma FoldLast(acc: map<string, Json>, ds: seq<map<string, Json>>, init: seq<map<string, Json>>, last: map<string, Json>)
    requires |ds| > 0 && StreamCompatible(acc, ds) && init == ds[..|ds| - 1] && last == ds[|ds| - 1]
    ensures StreamCompatible(acc, init) && FieldsCompatible(Fold(acc, init), last)
    ensures Fold(acc, ds) == MergeFields(Fold(acc, init), last)
  {
  }

  lemma TextsLast(ds: seq<map<string, Json>>, k: string, init: seq<map<string, Json>>, last: map<string, Json>)
    requires |ds| > 0 && init == ds[..|ds| - 1] && last == ds[|ds| - 1]
    ensures Texts(ds, k) == Texts(init, k) + TextOf(Get(last, k))
  {
  }

  /** One delta appends its text at a field that both sides hold as a string or not at all. */
  lemma AppendText(acc: map<string, Json>, d: map<string, Json>, k: string)
    requires FieldsCompatible(acc, d) && Textual(Get(acc, k)) && Textual(Get(d, k))
    ensures Textual(Get(MergeFields(acc, d), k))
    ensures TextOf(Get(MergeFields(acc, d), k)) == TextOf(Get(acc, k)) + TextOf(Get(d, k))
  {
    GetMergeFields(acc, d, k);
  }

  /** The merge is order-dependent: the same two string deltas give "Hello" one way and "lloHe" the other. */
  lemma MergeOrderMatters()
    ensures var he := map["content" := JStr("He")];
            var llo := map["content" := JStr("llo")];
            && Get(MergeFields(MergeFields(map[], he), llo), "content") == JStr("Hello")
            && Get(MergeFields(MergeFields(map[], llo), he), "content") == JStr("lloHe")
  {
    var he := map["content" := JStr("He")];
    var llo := map["content" := JStr("llo")];
    GetMergeFields(map[], he, "content");
    GetMergeFields(MergeFields(map[], he), llo, "content");
    GetMergeFields(map[], llo, "content");
    GetMergeFields(MergeFields(map[], llo), he, "content");
  }

  /**
   * Arrays are merged index by index, not replaced: a delta array of two
   * strings merged into an array of one string concatenates the first items
   * and adds the second.
   */
  lemma ArraysMergeByIndex()
    ensures Merge(JArr([JStr("a")]), JArr([JStr("a"), JStr("b")])) == JArr([JStr("aa"), JStr("b")])
  {
    var acc := [JStr("a")];
    var ds := [JStr("a"), JStr("b")];
    ItemAtMergeItems(acc, ds, 0);
    ItemAtMergeItems(acc, ds, 1);
    assert "a" + "a" == "aa";
    var r := MergeItems(acc, ds);
    assert r[0] == JStr("aa") && r[1] == JStr("b");
    assert r == [JStr("aa"), JStr("b")];
  }

  /**
   * The accumulated response of the chat handler (`const response: any = {}`),
   * updated in place once per streamed delta.
   */
  class Accumulator {
    var fields: map<string, Json>

    constructor ()
      ensures fields == map[]
    {
      fields := map[];
    }

    /**
     * `mergeWith(response, delta, customiser)`: lodash walks the delta's keys
     * and assigns each merged value into the response in turn.
     */
    method Absorb(delta: map<string, Json>)
      requires FieldsCompatible(fields, delta)
      modifies this
      ensures fields == MergeFields(old(fields), delta)
    {
      ghost var start := fields;
      var todo := delta.Keys;
      WalkedNone(start, delta);
      while todo != {}
        invariant todo <= delta.Keys
        invariant fields == Walked(start, delta, todo)
        decreases |todo|
      {
        var k :| k in todo;
        WalkedStep(start, delta, todo, k);
        fields := fields[k := Merge(Get(fields, k), delta[k])];
        todo := todo - {k};
      }
      WalkedAll(start, delta);
    }
  }

  /** The part of `d` on the keys in `keys`. */
  function Restrict(d: map<string, Json>, keys: set<string>): (r: map<string, Json>)
    ensures r.Keys == d.Keys * keys
    ensures forall k :: k in r ==> r[k] == d[k]
  {
    map k | k in d.Keys * keys :: d[k]
  }

  /** The response once the keys of `delta` outside `todo` have been merged. */
  ghost function Walked(acc: map<string, Json>, delta: map<string, Json>, todo: set<string>): map<string, Json>
    requires FieldsCompatible(acc, delta)
  {
    MergeFields(acc, Restrict(delta, delta.Keys - todo))
  }

  lemma WalkedNone(acc: map<string, Json>, delta: map<string, Json>)
    requires FieldsCompatible(acc, delta)
    ensures Walked(acc, delta, delta.Keys) == acc
  {
  }

  lemma WalkedAll(acc: map<string, Json>, delta: map<string, Json>)
    requires FieldsCompatible(acc, delta)
    ensures Walked(acc, delta, {}) == MergeFields(acc, delta)
  {
    assert Restrict(delta, delta.Keys - {}) == delta;
  }

  /**
   * Merging one more key of the delta assigns that key alone, from the value
   * it had before the walk began: no other key of the delta touches it.
   */
  lemma WalkedStep(acc: map<string, Json>, delta: map<string, Json>, todo: set<string>, k: string)
    requires FieldsCompatible(acc, delta) && todo <= delta.Keys && k in todo
    ensures Compatible(Get(Walked(acc, delta, todo), k), delta[k])
    ensures Walked(acc, delta, todo - {k}) ==
            Walked(acc, delta, todo)[k := Merge(Get(Walked(acc, delta, todo), k), delta[k])]
  {
    var before := Walked(acc, delta, todo);
    var after := Walked(acc, delta, todo - {k});
    WalkedAtKey(acc, delta, todo, k);
    var updated := before[k := Merge(Get(before, k), delta[k])];
    WalkedKeys(acc, delta, todo, k);
    forall j | j in after
      ensures after[j] == updated[j]
    {
      if j != k {
        WalkedOther(acc, delta, todo, k, j);
      }
    }
  }

  /** The merged keys grow by the key being merged. */
  lemma WalkedKeys(acc: map<string, Json>, delta: map<string, Json>, todo: set<string>, k: string)
    requires FieldsCompatible(acc, delta) && todo <= delta.Keys && k in todo
    ensures Walked(acc, delta, todo - {k}).Keys == Walked(acc, delta, todo).Keys + {k}
  {
    var seen := Restrict(delta, delta.Keys - todo);
    var seen' := Restrict(delta, delta.Keys - (todo - {k}));
    assert seen'.Keys == seen.Keys + {k};
  }

  /** The key being merged held its starting value and now holds the merge with the delta's value. */
  lemma WalkedAtKey(acc: map<string, Json>, delta: map<string, Json>, todo: set<string>, k: string)
    requires FieldsCompatible(acc, delta) && todo <= delta.Keys && k in todo
    ensures k in Walked(acc, delta, todo - {k})
    ensures Compatible(Get(Walked(acc, delta, todo), k), delta[k])
    ensures Get(Walked(acc, delta, todo - {k}), k) == Merge(Get(Walked(acc, delta, todo), k), delta[k])
  {
    var seen := Restrict(delta, delta.Keys - todo);
    var seen' := Restrict(delta, delta.Keys - (todo - {k}));
    GetMergeFields(acc, seen, k);
    GetMergeFields(acc, seen', k);
    GetMergeFields(acc, delta, k);
  }

  /** Every other key keeps its value. */
  lemma WalkedOther(acc: map<string, Json>, delta: map<string, Json>, todo: set<string>, k: string, j: string)
    requires FieldsCompatible(acc, delta) && todo <= delta.Keys && k in todo && j != k
    ensures Get(Walked(acc, delta, todo - {k}), j) == Get(Walked(acc, delta, todo), j)
  {
    var seen := Restrict(delta, delta.Keys - todo);
    var seen' := Restrict(delta, delta.Keys - (todo - {k}));
    assert Get(seen', j) == Get(seen, j);
    GetMergeFields(acc, seen, j);
    GetMergeFields(acc, seen', j);
  }
}
