/** transform_bboxes_in_json of fix_format.py: every JSON object whose
    "bbox" is a list of at least four items gets "x", "y", "width" and
    "height" from its first four items and loses "bbox"; the rewrite then
    descends into every object value and list item. A JSON object is a
    sequence of entries in insertion order, as a Python dict is. */
module JsonBbox {
  import opened Wrappers

  datatype Json =
    | Null
    | Bool(b: bool)
    | Num(n: real)
    | Str(s: string)
    | List(items: seq<Json>)
    | Dict(entries: seq<Entry>)

  datatype Entry = Entry(key: string, value: Json)

  /** Number of nodes, used as the termination measure. */
  function Size(j: Json): (n: nat)
    ensures n >= 1
    decreases j
  {
    match j
    case List(items) => 1 + ItemsSize(items)
    case Dict(es) => 1 + EntriesSize(es)
    case _ => 1
  }

  function ItemsSize(items: seq<Json>): nat
    decreases items
  {
    if items == [] then 0 else Size(items[0]) + ItemsSize(items[1..])
  }

  function EntriesSize(es: seq<Entry>): nat
    decreases es
  {
    if es == [] then 0 else Size(es[0].value) + EntriesSize(es[1..])
  }

  /** `d.get(k)`: the value of the first entry with key `k`. */
  function Get(es: seq<Entry>, k: string): Option<Json> {
    if es == [] then None
    else if es[0].key == k then Some(es[0].value)
    else Get(es[1..], k)
  }

  /** `d[k] = v`: an existing key keeps its position and gets the new value;
      a new key goes at the end. */
  function Set(es: seq<Entry>, k: string, v: Json): seq<Entry> {
    if es == [] then [Entry(k, v)]
    else if es[0].key == k then [Entry(k, v)] + es[1..]
    else [es[0]] + Set(es[1..], k, v)
  }

  /** `del d[k]` for a key that is present; the entries with key `k` go. */
  function Del(es: seq<Entry>, k: string): seq<Entry> {
    if es == [] then []
    else if es[0].key == k then Del(es[1..], k)
    else [es[0]] + Del(es[1..], k)
  }

  lemma {:induction false} GetSet(es: seq<Entry>, k: string, v: Json, k': string)
    ensures Get(Set(es, k, v), k') == if k' == k then Some(v) else Get(es, k')
  {
    if es != [] && es[0].key != k {
      GetSet(es[1..], k, v, k');
    }
  }

  lemma {:induction false} GetDel(es: seq<Entry>, k: string, k': string)
    ensures Get(Del(es, k), k') == if k' == k then None else Get(es, k')
  {
    if es != [] {
      GetDel(es[1..], k, k');
    }
  }

  lemma {:induction false} SetSize(es: seq<Entry>, k: string, v: Json)
    ensures EntriesSize(Set(es, k, v)) <= EntriesSize(es) + Size(v)
  {
    if es != [] && es[0].key != k {
      SetSize(es[1..], k, v);
    }
  }

  lemma {:induction false} DelSize(es: seq<Entry>, k: string, w: Json)
    requires Get(es, k) == Some(w)
    ensures EntriesSize(Del(es, k)) + Size(w) <= EntriesSize(es)
  {
    if es[0].key == k {
      DelNotLarger(es[1..], k);
    } else {
      DelSize(es[1..], k, w);
    }
  }

  lemma {:induction false} DelNotLarger(es: seq<Entry>, k: string)
    ensures EntriesSize(Del(es, k)) <= EntriesSize(es)
  {
    if es != [] {
      DelNotLarger(es[1..], k);
    }
  }

  lemma FirstFourSize(items: seq<Json>)
    requires |items| >= 4
    ensures Size(items[0]) + Size(items[1]) + Size(items[2]) + Size(items[3]) <= ItemsSize(items)
  {
    var t1, t2, t3 := items[1..], items[2..], items[3..];
    assert t1[0] == items[1] && t1[1..] == t2;
    assert t2[0] == items[2] && t2[1..] == t3;
    assert t3[0] == items[3];
    assert ItemsSize(items) == Size(items[0]) + ItemsSize(t1);
    assert ItemsSize(t1) == Size(items[1]) + ItemsSize(t2);
    assert ItemsSize(t2) == Size(items[2]) + ItemsSize(t3);
    assert ItemsSize(t3) == Size(items[3]) + ItemsSize(t3[1..]);
  }

  /** The guard of fix_format.py: "bbox" is present and a list of at least
      four items. */
  predicate HasLongBbox(es: seq<Entry>) {
    Get(es, "bbox").Some? && Get(es, "bbox").value.List? && |Get(es, "bbox").value.items| >= 4
  }

  /** The object after the bbox rewrite, before its values are visited. */
  function Reshape(es: seq<Entry>): seq<Entry> {
    if HasLongBbox(es) then
      var bbox := Get(es, "bbox").value.items;
      var withX := Set(es, "x", bbox[0]);
      var withY := Set(withX, "y", bbox[1]);
      var withW := Set(withY, "width", bbox[2]);
      var withH := Set(withW, "height", bbox[3]);
      Del(withH, "bbox")
    else es
  }

  /** The rewrite removes the bbox list node, which outweighs the four items
      it copies out. */
  lemma ReshapeSmaller(es: seq<Entry>)
    ensures EntriesSize(Reshape(es)) <= EntriesSize(es)
  {
    if HasLongBbox(es) {
      var box := Get(es, "bbox").value;
      var bbox := box.items;
      var withX := Set(es, "x", bbox[0]);
      var withY := Set(withX, "y", bbox[1]);
      var withW := Set(withY, "width", bbox[2]);
      var withH := Set(withW, "height", bbox[3]);
      SetSize(es, "x", bbox[0]);
      SetSize(withX, "y", bbox[1]);
      SetSize(withY, "width", bbox[2]);
      SetSize(withW, "height", bbox[3]);
      GetSet(es, "x", bbox[0], "bbox");
      GetSet(withX, "y", bbox[1], "bbox");
      GetSet(withY, "width", bbox[2], "bbox");
      GetSet(withW, "height", bbox[3], "bbox");
      DelSize(withH, "bbox", box);
      FirstFourSize(bbox);
    }
  }

  /** transform_bboxes_in_json. Lists keep their length and order, objects
      stay objects and scalars come back unchanged. */
  function Transform(j: Json): (r: Json)
    ensures j.List? ==> r.List? && |r.items| == |j.items|
    ensures j.Dict? ==> r.Dict?
    ensures !j.List? && !j.Dict? ==> r == j
    decreases Size(j), 0
  {
    match j
    case List(items) => List(TransformItems(items))
    case Dict(es) =>
      ReshapeSmaller(es);
      Dict(TransformEntries(Reshape(es)))
    case _ => j
  }

  /** The loop over the list slots: item k becomes the transform of item k. */
  function TransformItems(items: seq<Json>): (r: seq<Json>)
    ensures |r| == |items|
    decreases ItemsSize(items), 1
  {
    if items == [] then [] else [Transform(items[0])] + TransformItems(items[1..])
  }

  /** The loop over the object's items: keys and their order stay, each
      value becomes its transform. */
  function TransformEntries(es: seq<Entry>): (r: seq<Entry>)
    ensures |r| == |es|
    ensures forall k :: 0 <= k < |es| ==> r[k].key == es[k].key
    decreases EntriesSize(es), 1
  {
    if es == [] then [] else [Entry(es[0].key, Transform(es[0].value))] + TransformEntries(es[1..])
  }

  lemma {:induction false} TransformItemsAt(items: seq<Json>, k: nat)
    requires k < |items|
    ensures TransformItems(items)[k] == Transform(items[k])
  {
    if k > 0 {
      TransformItemsAt(items[1..], k - 1);
    }
  }

  lemma {:induction false} TransformEntriesAt(es: seq<Entry>, k: nat)
    requires k < |es|
    ensures TransformEntries(es)[k].value == Transform(es[k].value)
  {
    if k > 0 {
      TransformEntriesAt(es[1..], k - 1);
    }
  }

  /** Looking a key up after the value loop gives the transform of what it
      held before. */
  lemma {:induction false} GetTransformEntries(es: seq<Entry>, k: string)
    ensures Get(TransformEntries(es), k) ==
      if Get(es, k).Some? then Some(Transform(Get(es, k).value)) else None
  {
    if es != [] {
      assert TransformEntries(es)[1..] == TransformEntries(es[1..]);
      GetTransformEntries(es[1..], k);
    }
  }

  /** An object with a long bbox gets x, y, width and height from its first
      four items, whatever those keys held before, and has no bbox left;
      items past the fourth are dropped. */
  lemma BboxConverted(es: seq<Entry>, bbox: seq<Json>)
    requires Get(es, "bbox") == Some(List(bbox)) && |bbox| >= 4
    ensures var r := Transform(Dict(es)).entries;
      Get(r, "x") == Some(Transform(bbox[0])) && Get(r, "y") == Some(Transform(bbox[1])) &&
      Get(r, "width") == Some(Transform(bbox[2])) && Get(r, "height") == Some(Transform(bbox[3])) &&
      Get(r, "bbox") == None
  {
    var withX := Set(es, "x", bbox[0]);
    var withY := Set(withX, "y", bbox[1]);
    var withW := Set(withY, "width", bbox[2]);
    var withH := Set(withW, "height", bbox[3]);
    assert Reshape(es) == Del(withH, "bbox");
    GetDel(withH, "bbox", "x");
    GetDel(withH, "bbox", "y");
    GetDel(withH, "bbox", "width");
    GetDel(withH, "bbox", "height");
    GetSet(es, "x", bbox[0], "x");
    GetSet(es, "x", bbox[0], "y");
    GetSet(es, "x", bbox[0], "width");
    GetSet(withX, "y", bbox[1], "y");
    GetSet(withX, "y", bbox[1], "x");
    GetSet(withX, "y", bbox[1], "width");
    GetSet(withY, "width", bbox[2], "width");
    GetSet(withY, "width", bbox[2], "x");
    GetSet(withY, "width", bbox[2], "y");
    GetSet(withW, "height", bbox[3], "height");
    GetSet(withW, "height", bbox[3], "x");
    GetSet(withW, "height", bbox[3], "y");
    GetSet(withW, "height", bbox[3], "width");
    GetDel(withH, "bbox", "bbox");
    GetTransformEntries(Reshape(es), "x");
    GetTransformEntries(Reshape(es), "y");
    GetTransformEntries(Reshape(es), "width");
    GetTransformEntries(Reshape(es), "height");
    GetTransformEntries(Reshape(es), "bbox");
  }

  /** A bbox that is not a list, or a list of fewer than four items, stays in
      place and the object is only visited value by value. */
  lemma BboxKept(es: seq<Entry>)
    requires !HasLongBbox(es)
    ensures Transform(Dict(es)) == Dict(TransformEntries(es))
    ensures Get(es, "bbox").Some? ==> Get(Transform(Dict(es)).entries, "bbox") == Some(Transform(Get(es, "bbox").value))
  {
    GetTransformEntries(es, "bbox");
  }

  /** Keys other than x, y, width, height and bbox keep their (transformed)
      values, so nested objects anywhere are converted. */
  lemma OtherKeys(es: seq<Entry>, k: string)
    requires k != "x" && k != "y" && k != "width" && k != "height" && k != "bbox"
    ensures Get(Transform(Dict(es)).entries, k) ==
      if Get(es, k).Some? then Some(Transform(Get(es, k).value)) else None
  {
    if HasLongBbox(es) {
      var bbox := Get(es, "bbox").value.items;
      var withX := Set(es, "x", bbox[0]);
      var withY := Set(withX, "y", bbox[1]);
      var withW := Set(withY, "width", bbox[2]);
      var withH := Set(withW, "height", bbox[3]);
      GetSet(es, "x", bbox[0], k);
      GetSet(withX, "y", bbox[1], k);
      GetSet(withY, "width", bbox[2], k);
      GetSet(withW, "height", bbox[3], k);
      GetDel(withH, "bbox", k);
    }
    GetTransformEntries(Reshape(es), k);
  }

  lemma {:induction false} EntrySizeBound(es: seq<Entry>, k: nat)
    requires k < |es|
    ensures Size(es[k].value) <= EntriesSize(es)
  {
    if k > 0 {
      EntrySizeBound(es[1..], k - 1);
    }
  }

  lemma {:induction false} ItemSizeBound(items: seq<Json>, k: nat)
    requires k < |items|
    ensures Size(items[k]) <= ItemsSize(items)
  {
    if k > 0 {
      ItemSizeBound(items[1..], k - 1);
    }
  }

  /** After one transform no object has a long bbox left. */
  lemma NoLongBboxAfter(es: seq<Entry>)
    ensures !HasLongBbox(TransformEntries(Reshape(es)))
  {
    var r := Reshape(es);
    GetTransformEntries(r, "bbox");
    if HasLongBbox(es) {
      var bbox := Get(es, "bbox").value.items;
      var withX := Set(es, "x", bbox[0]);
      var withY := Set(withX, "y", bbox[1]);
      var withW := Set(withY, "width", bbox[2]);
      var withH := Set(withW, "height", bbox[3]);
      GetDel(withH, "bbox", "bbox");
    }
  }

  /** Transforming an already transformed document changes nothing. */
  lemma {:induction false} TransformIdempotent(j: Json)
    ensures Transform(Transform(j)) == Transform(j)
    decreases Size(j)
  {
    match j
    case List(items) =>
      var t := TransformItems(items);
      forall k | 0 <= k < |items|
        ensures TransformItems(t)[k] == t[k]
      {
        ItemSizeBound(items, k);
        TransformItemsAt(items, k);
        TransformItemsAt(t, k);
        TransformIdempotent(items[k]);
      }
      assert TransformItems(t) == t;
    case Dict(es) =>
      var r := Reshape(es);
      ReshapeSmaller(es);
      var t := TransformEntries(r);
      NoLongBboxAfter(es);
      assert Reshape(t) == t;
      forall k | 0 <= k < |r|
        ensures TransformEntries(t)[k] == t[k]
      {
        EntrySizeBound(r, k);
        TransformEntriesAt(r, k);
        TransformEntriesAt(t, k);
        TransformIdempotent(r[k].value);
      }
      assert TransformEntries(t) == t;
    case _ =>
  }
}
