/**
 * `recursivePatchCommentJson`: merging a plain "intended" JSON value onto a
 * JSON document whose members and array elements carry comments, in place.
 *
 * A document node is a primitive leaf, an array of annotated elements or an
 * object of annotated members. An annotation is the comment attached before an
 * element or a key; it travels with its element under `push`/`splice`, and a
 * key keeps its annotation when its value is replaced. Two document values
 * are equal (lodash `isEqual`) when their annotation-erased values are: arrays
 * element by element, objects key by key whatever the order of their keys.
 */
module CommentPatch {
  import opened Wrappers
  import opened Json

  datatype Ann = Bare | Commented(text: string)

  type Primitive = j: Json | IsPrimitive(j) witness JNull

  datatype Node =
    | Leaf(value: Primitive)
    | Arr(elems: seq<Elem>)
    | Obj(members: seq<Member>)

  datatype Elem = Elem(ann: Ann, node: Node)

  datatype Member = Member(key: string, ann: Ann, node: Node)

  /** The plain JSON value of a document node: its comments dropped. */
  function Erase(n: Node): Json {
    match n
    case Leaf(v) => v
    case Arr(es) => JArr(seq(|es|, i requires 0 <= i < |es| => Erase(es[i].node)))
    case Obj(ms) => JObj(seq(|ms|, i requires 0 <= i < |ms| => (ms[i].key, Erase(ms[i].node))))
  }

  /** A plain value inserted into the document: no comments anywhere. */
  function Annotate(j: Json): Node {
    match j
    case JArr(items) => Arr(seq(|items|, i requires 0 <= i < |items| => Elem(Bare, Annotate(items[i]))))
    case JObj(fields) =>
      Obj(seq(|fields|, i requires 0 <= i < |fields| => Member(fields[i].0, Bare, Annotate(fields[i].1))))
    case _ => Leaf(j)
  }

  /** An array element taken from the edit. */
  function Fresh(j: Json): Elem {
    Elem(Bare, Annotate(j))
  }

  /** Inserting a plain value and reading it back gives the value. */
  lemma {:induction false} EraseAnnotate(j: Json)
    ensures Erase(Annotate(j)) == j
  {
    match j
    case JArr(items) =>
      forall i | 0 <= i < |items| {
        EraseAnnotate(items[i]);
      }
    case JObj(fields) =>
      forall i | 0 <= i < |fields| {
        EraseAnnotate(fields[i].1);
      }
    case _ =>
  }

  /** The erased values of a sequence of elements. */
  function Erases(es: seq<Elem>): (vs: seq<Json>)
    ensures |vs| == |es|
    ensures forall i :: 0 <= i < |es| ==> vs[i] == Erase(es[i].node)
  {
    seq(|es|, i requires 0 <= i < |es| => Erase(es[i].node))
  }

  /**
   * lodash `isEqual` on JSON data: primitives by value, arrays of the same
   * length element by element, objects with the same number of own keys where
   * each key of `a` holds an equal value in `b`, in whatever position.
   */
  predicate IsEqual(a: Json, b: Json)
    decreases a, 0
  {
    match a
    case JArr(xs) =>
      b.JArr? && |xs| == |b.items| && forall i :: 0 <= i < |xs| ==> IsEqual(xs[i], b.items[i])
    case JObj(fs) =>
      b.JObj? && |fs| == |b.fields| && forall i :: 0 <= i < |fs| ==> HoldsEqual(b.fields, fs[i].0, fs[i].1)
    case _ => a == b
  }

  /** `k` is a key of `fields` whose value is equal to `v`. */
  predicate HoldsEqual(fields: seq<(string, Json)>, k: string, v: Json)
    decreases v, 1
  {
    exists j :: 0 <= j < |fields| && fields[j].0 == k && IsEqual(v, fields[j].1)
  }

  /** Every JSON value is equal to itself. */
  lemma {:induction false} IsEqualReflexive(a: Json)
    ensures IsEqual(a, a)
  {
    match a
    case JArr(xs) =>
      forall i | 0 <= i < |xs| ensures IsEqual(xs[i], xs[i]) {
        IsEqualReflexive(xs[i]);
      }
    case JObj(fs) =>
      forall i | 0 <= i < |fs| ensures HoldsEqual(fs, fs[i].0, fs[i].1) {
        IsEqualReflexive(fs[i].1);
        assert fs[i].0 == fs[i].0 && IsEqual(fs[i].1, fs[i].1);
      }
    case _ =>
  }

  /** Objects that differ only in the order of their keys are equal. */
  lemma KeyOrderIgnored()
    ensures IsEqual(JObj([("a", JNum(1)), ("b", JNum(2))]), JObj([("b", JNum(2)), ("a", JNum(1))]))
    ensures !IsEqual(JObj([("a", JNum(1))]), JObj([("a", JNum(2))]))
  {
    var x, y := JObj([("a", JNum(1)), ("b", JNum(2))]), JObj([("b", JNum(2)), ("a", JNum(1))]);
    assert y.fields[1].0 == "a" && IsEqual(JNum(1), y.fields[1].1);
    assert y.fields[0].0 == "b" && IsEqual(JNum(2), y.fields[0].1);
    var z := [("a", JNum(2))];
    forall j | 0 <= j < |z| ensures !IsEqual(JNum(1), z[j].1) {
      assert j == 0;
    }
    assert !HoldsEqual(z, "a", JNum(1));
    var o := JObj([("a", JNum(1))]);
    assert !HoldsEqual(z, o.fields[0].0, o.fields[0].1);
  }

  // ---------------------------------------------------------------------------
  // Array reconciliation: the two-cursor walk `recursivePatchCommentJson` runs
  // over an array key the document holds as an array, as written.
  // Reads past the end of an array are JavaScript `undefined` (None here), and
  // `isEqual(undefined, undefined)` holds.
  // ---------------------------------------------------------------------------

  /** The state of the walk: the array being edited and the two cursors. */
  datatype Walk = Walk(arr: seq<Elem>, iOld: nat, iNew: nat)

  function OldAt(arr: seq<Elem>, i: nat): (r: Option<Json>)
    ensures r.Some? <==> i < |arr|
  {
    if i < |arr| then Some(Erase(arr[i].node)) else None
  }

  function NewAt(items: seq<Json>, i: nat): (r: Option<Json>)
    ensures r.Some? <==> i < |items|
  {
    if i < |items| then Some(items[i]) else None
  }

  /** `isEqual` on array reads, where `isEqual(undefined, undefined)` holds. */
  predicate SameValue(a: Option<Json>, b: Option<Json>) {
    if a.Some? && b.Some? then IsEqual(a.value, b.value) else a == b
  }

  /** `items.some(futureNew => isEqual(futureNew, v))`. */
  predicate AnyEqual(items: seq<Json>, v: Json) {
    exists k :: 0 <= k < |items| && IsEqual(items[k], v)
  }

  /** `items.slice(i)`: empty when `i` is past the end. */
  function Later(items: seq<Json>, i: nat): (r: seq<Json>)
    ensures |r| > 0 ==> i < |items|
  {
    if i <= |items| then items[i..] else []
  }

  /** `arr.splice(i, 1)`: removes element `i`; does nothing when `i` is past the end. */
  function Splice(arr: seq<Elem>, i: nat): (r: seq<Elem>)
    ensures i < |arr| ==> |r| == |arr| - 1 && r[..i] == arr[..i] && r[i..] == arr[i + 1..]
    ensures i >= |arr| ==> r == arr
  {
    if i < |arr| then arr[..i] + arr[i + 1..] else arr
  }

  /** `arr.splice(i, 0, e)`: inserts `e` before element `i`. */
  function InsertAt(arr: seq<Elem>, i: nat, e: Elem): (r: seq<Elem>)
    requires i <= |arr|
    ensures |r| == |arr| + 1 && r[..i] == arr[..i] && r[i] == e && r[i + 1..] == arr[i..]
  {
    arr[..i] + [e] + arr[i..]
  }

  /** The walk's loop condition: either cursor is still inside its array. */
  predicate Active(w: Walk, items: seq<Json>) {
    w.iOld < |w.arr| || w.iNew < |items|
  }

  /** While the walk runs, the old cursor is inside the array or just past it. */
  predicate Inv(w: Walk, items: seq<Json>) {
    w.iOld <= |w.arr| || !Active(w, items)
  }

  function Measure(w: Walk, items: seq<Json>): int {
    (|w.arr| - w.iOld) + (if w.iNew <= |items| then |items| - w.iNew else 0)
  }

  /**
   * The walk's first test: when one array is exhausted the old array grows by
   * a push or shrinks by a splice, and the turn goes on to the comparison with
   * no `continue`.
   */
  function Exhaust(w: Walk, items: seq<Json>): Walk
    requires Inv(w, items) && Active(w, items)
  {
    if w.iOld >= |w.arr| then Walk(w.arr + [Fresh(items[w.iNew])], w.iOld + 1, w.iNew + 1)
    else if w.iNew >= |items| then Walk(Splice(w.arr, w.iOld), w.iOld, w.iNew)
    else w
  }

  /**
   * The walk's comparison: match, insert before a surviving old element, or
   * delete.
   * Every branch moves the edit cursor on by one, and a match leaves the array
   * as it is.
   */
  function Match(w: Walk, items: seq<Json>): (r: Walk)
    ensures r.iNew == w.iNew + 1
    ensures SameValue(OldAt(w.arr, w.iOld), NewAt(items, w.iNew)) ==> r.arr == w.arr && r.iOld == w.iOld + 1
  {
    var cur := OldAt(w.arr, w.iOld);
    if SameValue(cur, NewAt(items, w.iNew)) then Walk(w.arr, w.iOld + 1, w.iNew + 1)
    else if cur.Some? && AnyEqual(Later(items, w.iNew), cur.value) then
      Walk(InsertAt(w.arr, w.iOld, Fresh(items[w.iNew])), w.iOld + 1, w.iNew + 1)
    else Walk(Splice(w.arr, w.iOld), w.iOld, w.iNew + 1)
  }

  /** One iteration of the loop body keeps the cursor bound and brings the walk closer to its end. */
  function Step(w: Walk, items: seq<Json>): (r: Walk)
    requires Inv(w, items) && Active(w, items)
    ensures Inv(r, items)
    ensures 0 <= Measure(w, items) && Measure(r, items) < Measure(w, items)
  {
    Match(Exhaust(w, items), items)
  }

  /**
   * The array the walk leaves behind. The walk never invents a comment: each
   * element of the result is an element of the array it started from (with
   * its comment) or an uncommented value of the edit.
   */
  function Reconcile(w: Walk, items: seq<Json>): (r: seq<Elem>)
    requires Inv(w, items)
    ensures FromOldOrEdit(r, w.arr, items)
    decreases Measure(w, items)
  {
    if !Active(w, items) then w.arr
    else
      StepProvenance(w, items, w.arr);
      Reconcile(Step(w, items), items)
  }

  /** The walk itself, on a copy of the old array. */
  method ReconcileArray(oldArr: seq<Elem>, newArr: seq<Json>) returns (arr: seq<Elem>)
    ensures arr == Reconcile(Walk(oldArr, 0, 0), newArr)
  {
    arr := oldArr;
    var iOld, iNew := 0, 0;
    while iOld < |arr| || iNew < |newArr|
      invariant Inv(Walk(arr, iOld, iNew), newArr)
      invariant Reconcile(Walk(arr, iOld, iNew), newArr) == Reconcile(Walk(oldArr, 0, 0), newArr)
      decreases Measure(Walk(arr, iOld, iNew), newArr)
    {
      ghost var before := Walk(arr, iOld, iNew);
      if iOld >= |arr| {
        arr := arr + [Fresh(newArr[iNew])];
        iOld, iNew := iOld + 1, iNew + 1;
      } else if iNew >= |newArr| {
        arr := Splice(arr, iOld);
      }
      assert Walk(arr, iOld, iNew) == Exhaust(before, newArr);
      if SameValue(OldAt(arr, iOld), NewAt(newArr, iNew)) {
        iOld, iNew := iOld + 1, iNew + 1;
      } else {
        var isInsert := OldAt(arr, iOld).Some? && AnyEqual(Later(newArr, iNew), OldAt(arr, iOld).value);
        if isInsert {
          arr := InsertAt(arr, iOld, Fresh(newArr[iNew]));
          iOld, iNew := iOld + 1, iNew + 1;
        } else {
          arr := Splice(arr, iOld);
          iNew := iNew + 1;
        }
      }
      assert Walk(arr, iOld, iNew) == Step(before, newArr);
    }
  }

  /**
   * An array already equal to the edit (`isEqual`, so its objects may order
   * their keys differently) is walked in lock step and left exactly as it is,
   * comments included.
   */
  lemma {:induction false} ReconcileKeepsEqual(arr: seq<Elem>, items: seq<Json>, i: nat)
    requires IsEqual(JArr(Erases(arr)), JArr(items)) && i <= |arr|
    ensures Reconcile(Walk(arr, i, i), items) == arr
    decreases |arr| - i
  {
    if i < |arr| {
      assert IsEqual(Erases(arr)[i], items[i]);
      assert Step(Walk(arr, i, i), items) == Walk(arr, i + 1, i + 1);
      ReconcileKeepsEqual(arr, items, i + 1);
    }
  }

  /** Old `[/*c*/ {a: 1, b: 2}]` patched with `[{b: 2, a: 1}]`: the element and its comment stay. */
  lemma ReconcileKeyOrderScenario()
    ensures Reconcile(Walk([Elem(Commented("c"), Obj([Member("a", Bare, Leaf(JNum(1))), Member("b", Bare, Leaf(JNum(2)))]))], 0, 0),
                      [JObj([("b", JNum(2)), ("a", JNum(1))])])
         == [Elem(Commented("c"), Obj([Member("a", Bare, Leaf(JNum(1))), Member("b", Bare, Leaf(JNum(2)))]))]
  {
    var e := Elem(Commented("c"), Obj([Member("a", Bare, Leaf(JNum(1))), Member("b", Bare, Leaf(JNum(2)))]));
    var items := [JObj([("b", JNum(2)), ("a", JNum(1))])];
    KeyOrderIgnored();
    var fs := Erase(e.node).fields;
    assert |fs| == 2 && fs[0] == ("a", JNum(1)) && fs[1] == ("b", JNum(2));
    assert fs == [("a", JNum(1)), ("b", JNum(2))];
    assert Erases([e]) == [JObj(fs)];
    ReconcileKeepsEqual([e], items, 0);
  }

  /** The elements the walk may insert: the edit's values, uncommented. */
  function FreshAll(items: seq<Json>): (es: seq<Elem>)
    ensures |es| == |items|
    ensures forall i :: 0 <= i < |items| ==> es[i] == Fresh(items[i])
  {
    seq(|items|, i requires 0 <= i < |items| => Fresh(items[i]))
  }

  /** Every element of `arr` is an element of the old array or an uncommented value of the edit. */
  predicate FromOldOrEdit(arr: seq<Elem>, prior: seq<Elem>, items: seq<Json>) {
    forall e :: e in arr ==> e in prior || e in FreshAll(items)
  }

  lemma SpliceSubset(arr: seq<Elem>, i: nat)
    ensures forall e :: e in Splice(arr, i) ==> e in arr
  {
    if i < |arr| {
      assert arr == arr[..i] + [arr[i]] + arr[i + 1..];
    }
  }

  lemma StepProvenance(w: Walk, items: seq<Json>, prior: seq<Elem>)
    requires Inv(w, items) && Active(w, items)
    requires FromOldOrEdit(w.arr, prior, items)
    ensures FromOldOrEdit(Step(w, items).arr, prior, items)
  {
    var x := Exhaust(w, items);
    if w.iOld >= |w.arr| {
      assert FreshAll(items)[w.iNew] == Fresh(items[w.iNew]);
    } else {
      SpliceSubset(w.arr, w.iOld);
    }
    assert FromOldOrEdit(x.arr, prior, items);
    var cur := OldAt(x.arr, x.iOld);
    if SameValue(cur, NewAt(items, x.iNew)) {
    } else if cur.Some? && AnyEqual(Later(items, x.iNew), cur.value) {
      var r := InsertAt(x.arr, x.iOld, Fresh(items[x.iNew]));
      assert r == x.arr[..x.iOld] + [Fresh(items[x.iNew])] + x.arr[x.iOld..];
      assert FreshAll(items)[x.iNew] == Fresh(items[x.iNew]);
      forall e | e in r
        ensures e in prior || e in FreshAll(items)
      {
        if e in x.arr[..x.iOld] {
          assert e in x.arr;
        } else if e in x.arr[x.iOld..] {
          assert e in x.arr;
        }
      }
    } else {
      SpliceSubset(x.arr, x.iOld);
    }
  }

  /** A commented element of the reconciled array was already in the old array. */
  lemma ReconcileKeepsOnlyOldComments(prior: seq<Elem>, items: seq<Json>)
    ensures forall e :: e in Reconcile(Walk(prior, 0, 0), items) && e.ann.Commented? ==> e in prior
  {
  }

  // Scenarios of the test suite, on arrays of commented strings.

  function Noted(s: string): Elem {
    Elem(Commented(s), Leaf(JStr(s)))
  }

  /** The first three steps of the insert scenario: `d` is inserted before `a`, then `a` and `b` match. */
  lemma InsertScenarioFront(items: seq<Json>, a: Elem, b: Elem, c: Elem, d: Elem)
    requires items == [JStr("d"), JStr("a"), JStr("b"), JStr("b"), JStr("c"), JStr("f")]
    requires a == Noted("a") && b == Noted("b") && c == Noted("c") && d == Fresh(JStr("d"))
    ensures Reconcile(Walk([a, b, c], 0, 0), items) == Reconcile(Walk([d, a, b, c], 3, 3), items)
  {
    var w0, w1, w2, w3 := Walk([a, b, c], 0, 0), Walk([d, a, b, c], 1, 1), Walk([d, a, b, c], 2, 2), Walk([d, a, b, c], 3, 3);
    assert IsEqual(Later(items, 0)[1], JStr("a"));
    assert Step(w0, items) == w1;
    assert Reconcile(w0, items) == Reconcile(w1, items);
    assert Step(w1, items) == w2;
    assert Reconcile(w1, items) == Reconcile(w2, items);
    assert Step(w2, items) == w3;
  }

  /** The last three steps: the second `b` is inserted, `c` matches and `f` is pushed. */
  lemma InsertScenarioBack(items: seq<Json>, a: Elem, b: Elem, c: Elem, d: Elem, b': Elem, f: Elem)
    requires items == [JStr("d"), JStr("a"), JStr("b"), JStr("b"), JStr("c"), JStr("f")]
    requires a == Noted("a") && b == Noted("b") && c == Noted("c") && d == Fresh(JStr("d"))
    requires b' == Fresh(JStr("b")) && f == Fresh(JStr("f"))
    ensures Reconcile(Walk([d, a, b, c], 3, 3), items) == [d, a, b, b', c, f]
  {
    var w3, w4, w5, w6 := Walk([d, a, b, c], 3, 3), Walk([d, a, b, b', c], 4, 4), Walk([d, a, b, b', c], 5, 5), Walk([d, a, b, b', c, f], 7, 7);
    assert IsEqual(Later(items, 3)[1], JStr("c"));
    assert Step(w3, items) == w4;
    assert Reconcile(w3, items) == Reconcile(w4, items);
    assert Step(w4, items) == w5;
    assert Reconcile(w4, items) == Reconcile(w5, items);
    assert Step(w5, items) == w6;
    assert Reconcile(w5, items) == Reconcile(w6, items);
    assert !Active(w6, items);
  }

  /** Old `[a, b, c]` (each commented) patched with `[d, a, b, b, c, f]`. */
  lemma ReconcileInsertScenario()
    ensures Reconcile(Walk([Noted("a"), Noted("b"), Noted("c")], 0, 0),
                      [JStr("d"), JStr("a"), JStr("b"), JStr("b"), JStr("c"), JStr("f")])
         == [Fresh(JStr("d")), Noted("a"), Noted("b"), Fresh(JStr("b")), Noted("c"), Fresh(JStr("f"))]
  {
    var items := [JStr("d"), JStr("a"), JStr("b"), JStr("b"), JStr("c"), JStr("f")];
    var a, b, c := Noted("a"), Noted("b"), Noted("c");
    var d, b', f := Fresh(JStr("d")), Fresh(JStr("b")), Fresh(JStr("f"));
    InsertScenarioFront(items, a, b, c, d);
    InsertScenarioBack(items, a, b, c, d, b', f);
  }

  /** Old `[a, b, c]` (each commented) patched with `[a]`. */
  lemma ReconcileDeleteScenario()
    ensures Reconcile(Walk([Noted("a"), Noted("b"), Noted("c")], 0, 0), [JStr("a")]) == [Noted("a")]
  {
    var items := [JStr("a")];
    var a, b, c := Noted("a"), Noted("b"), Noted("c");
    assert Step(Walk([a, b, c], 0, 0), items) == Walk([a, b, c], 1, 1);
    assert Step(Walk([a, b, c], 1, 1), items) == Walk([a], 1, 2);
  }

  /** Old `[a]` patched with `[a, x, y]`: the fall-through after the push loses `y`. */
  lemma ReconcileDropsTail()
    ensures Reconcile(Walk([Noted("a")], 0, 0), [JStr("a"), JStr("x"), JStr("y")])
         == [Noted("a"), Fresh(JStr("x"))]
  {
    var items := [JStr("a"), JStr("x"), JStr("y")];
    var a := Noted("a");
    assert Step(Walk([a], 0, 0), items) == Walk([a], 1, 1);
    assert Step(Walk([a], 1, 1), items) == Walk([a, Fresh(JStr("x"))], 2, 3);
  }

  /** Old `[x]` patched with `[y]`: the delete branch also skips `y`, so nothing is left. */
  lemma ReconcileLosesReplacement()
    ensures Reconcile(Walk([Noted("x")], 0, 0), [JStr("y")]) == []
  {
    assert Step(Walk([Noted("x")], 0, 0), [JStr("y")]) == Walk([], 0, 1);
  }

  // ---------------------------------------------------------------------------
  // The walk as evidently intended: each exhausted branch ends the iteration,
  // and a delete keeps the new cursor where it is.
  // ---------------------------------------------------------------------------

  predicate InBounds(w: Walk, items: seq<Json>) {
    w.iOld <= |w.arr| && w.iNew <= |items|
  }

  function StepIntended(w: Walk, items: seq<Json>): (r: Walk)
    requires InBounds(w, items) && Active(w, items)
    ensures InBounds(r, items)
    ensures Measure(r, items) < Measure(w, items)
  {
    if w.iOld >= |w.arr| then Walk(w.arr + [Fresh(items[w.iNew])], w.iOld + 1, w.iNew + 1)
    else if w.iNew >= |items| then Walk(Splice(w.arr, w.iOld), w.iOld, w.iNew)
    else if IsEqual(Erase(w.arr[w.iOld].node), items[w.iNew]) then Walk(w.arr, w.iOld + 1, w.iNew + 1)
    else if AnyEqual(items[w.iNew..], Erase(w.arr[w.iOld].node)) then
      Walk(InsertAt(w.arr, w.iOld, Fresh(items[w.iNew])), w.iOld + 1, w.iNew + 1)
    else Walk(Splice(w.arr, w.iOld), w.iOld, w.iNew)
  }

  function ReconcileIntended(w: Walk, items: seq<Json>): seq<Elem>
    requires InBounds(w, items)
    decreases Measure(w, items)
  {
    if !Active(w, items) then w.arr else ReconcileIntended(StepIntended(w, items), items)
  }

  /** The cursors move together and everything before them already matches the edit. */
  predicate Matched(w: Walk, items: seq<Json>) {
    InBounds(w, items) && w.iOld == w.iNew
    && forall j :: 0 <= j < w.iOld ==> IsEqual(Erase(w.arr[j].node), items[j])
  }

  lemma StepIntendedMatched(w: Walk, items: seq<Json>)
    requires Matched(w, items) && Active(w, items)
    ensures Matched(StepIntended(w, items), items)
  {
    var r := StepIntended(w, items);
    if w.iOld >= |w.arr| {
      EraseAnnotate(items[w.iNew]);
      IsEqualReflexive(items[w.iNew]);
      assert r.arr[w.iOld] == Fresh(items[w.iNew]);
    } else if w.iNew >= |items| {
      assert forall j :: 0 <= j < w.iOld ==> r.arr[j] == r.arr[..w.iOld][j];
    } else if IsEqual(Erase(w.arr[w.iOld].node), items[w.iNew]) {
    } else if AnyEqual(items[w.iNew..], Erase(w.arr[w.iOld].node)) {
      EraseAnnotate(items[w.iNew]);
      IsEqualReflexive(items[w.iNew]);
      assert forall j :: 0 <= j < w.iOld ==> r.arr[j] == r.arr[..w.iOld][j];
    } else {
      assert forall j :: 0 <= j < w.iOld ==> r.arr[j] == r.arr[..w.iOld][j];
    }
  }

  /** The intended walk leaves an array whose plain value is equal (`isEqual`) to the edit. */
  lemma {:induction false} ReconcileIntendedMatchesEdit(w: Walk, items: seq<Json>)
    requires Matched(w, items)
    ensures IsEqual(JArr(Erases(ReconcileIntended(w, items))), JArr(items))
    decreases Measure(w, items)
  {
    if Active(w, items) {
      StepIntendedMatched(w, items);
      ReconcileIntendedMatchesEdit(StepIntended(w, items), items);
    } else {
      var vs := Erases(w.arr);
      assert forall j :: 0 <= j < |vs| ==> IsEqual(vs[j], items[j]);
    }
  }

  // ---------------------------------------------------------------------------
  // Object members: lookup and `target[k] = value`.
  // ---------------------------------------------------------------------------

  /** The member stored under `k`, with its comment. */
  function Find(ms: seq<Member>, k: string): (r: Option<Member>)
    ensures r.Some? ==> r.value.key == k
  {
    if ms == [] then None
    else if ms[0].key == k then Some(ms[0])
    else Find(ms[1..], k)
  }

  /** The comment a key has, or none for a key the object does not have. */
  function AnnOf(ms: seq<Member>, k: string): Ann {
    match Find(ms, k)
    case Some(m) => m.ann
    case None => Bare
  }

  /** `target[k] = n`: an existing key keeps its place and its comment; a new key goes last, uncommented. */
  function SetMember(ms: seq<Member>, k: string, n: Node): (r: seq<Member>)
    ensures Find(r, k) == Some(Member(k, AnnOf(ms, k), n))
  {
    if ms == [] then [Member(k, Bare, n)]
    else if ms[0].key == k then [Member(k, ms[0].ann, n)] + ms[1..]
    else [ms[0]] + SetMember(ms[1..], k, n)
  }

  /** Setting one key leaves every other key, value and comment, as it was. */
  lemma {:induction false} SetMemberOther(ms: seq<Member>, k: string, n: Node, k': string)
    requires k' != k
    ensures Find(SetMember(ms, k, n), k') == Find(ms, k')
  {
    if ms != [] && ms[0].key != k {
      SetMemberOther(ms[1..], k, n, k');
    }
  }

  /** Writing back the node a key already holds changes nothing. */
  lemma {:induction false} SetMemberSame(ms: seq<Member>, k: string, m: Member)
    requires Find(ms, k) == Some(m)
    ensures SetMember(ms, k, m.node) == ms
  {
    if ms[0].key != k {
      SetMemberSame(ms[1..], k, m);
    }
  }

  // ---------------------------------------------------------------------------
  // The patch, phase by phase, as left folds over the edit's keys.
  // ---------------------------------------------------------------------------

  /** `assign` needs an object to write into: comment-json throws a TypeError otherwise. */
  datatype PatchError = TargetNotAnObject

  /**
   * The patched document and, once `target = edit[k]` has run, the value the local
   * `target` was rebound to (an array of the edit).
   */
  datatype Patched = Patched(doc: Node, rebound: Option<Json>)

  /** `target[k] !== edit[k]` for a primitive edit value. */
  predicate Differs(ms: seq<Member>, k: string, v: Json) {
    match Find(ms, k)
    case Some(m) => !(m.node.Leaf? && m.node.value == v)
    case None => true
  }

  /** The primitive pass over the first `n` keys: strictly different primitives are assigned. */
  function AssignPrimitives(orig: seq<Member>, fields: seq<(string, Json)>, n: nat): seq<Member>
    requires n <= |fields|
  {
    if n == 0 then orig
    else
      var ms := AssignPrimitives(orig, fields, n - 1);
      var k, v := fields[n - 1].0, fields[n - 1].1;
      if IsPrimitive(v) && Differs(orig, k, v) then SetMember(ms, k, Leaf(v)) else ms
  }

  /** The array pass over the first `n` keys: arrays are reconciled, or `target` is rebound. */
  function ArrayKeys(start: Node, fields: seq<(string, Json)>, n: nat): (p: Patched)
    requires n <= |fields|
    ensures p.doc.Obj? <==> start.Obj?
    ensures p.rebound.Some? ==> p.rebound.value.JArr?
  {
    if n == 0 then Patched(start, None)
    else
      var p := ArrayKeys(start, fields, n - 1);
      var k, v := fields[n - 1].0, fields[n - 1].1;
      if !v.JArr? then p
      else if p.rebound.Some? || !p.doc.Obj? then Patched(p.doc, Some(v))
      else match Find(p.doc.members, k)
        case Some(Member(_, _, Arr(es))) =>
          Patched(Obj(SetMember(p.doc.members, k, Arr(Reconcile(Walk(es, 0, 0), v.items)))), None)
        case _ => Patched(p.doc, Some(v))
  }

  /**
   * The object pass over the first `n` keys: an own key is patched recursively (the
   * recursive call's own rebinding is discarded), a missing key is assigned the
   * edit's object. Once `target` is rebound to an array of the edit, these
   * writes land on that array as named properties and leave no visible trace.
   */
  function ObjectKeys(p0: Patched, edit: Json, n: nat): (r: Result<Patched, PatchError>)
    requires edit.JObj? && n <= |edit.fields|
    ensures r.Success? ==> r.value.rebound == p0.rebound && (r.value.doc.Obj? <==> p0.doc.Obj?)
    decreases edit, 1, n
  {
    if n == 0 then Success(p0)
    else
      var p :- ObjectKeys(p0, edit, n - 1);
      var k, v := edit.fields[n - 1].0, edit.fields[n - 1].1;
      if !v.JObj? || p.rebound.Some? || !p.doc.Obj? then Success(p)
      else match Find(p.doc.members, k)
        case Some(m) =>
          var c :- PatchNode(m.node, v);
          Success(Patched(Obj(SetMember(p.doc.members, k, c.doc)), None))
        case None => Success(Patched(Obj(SetMember(p.doc.members, k, Annotate(v))), None))
  }

  /** `recursivePatchCommentJson(target, edit)` on an object edit, in place. */
  function PatchNode(target: Node, edit: Json): (r: Result<Patched, PatchError>)
    requires edit.JObj?
    ensures r.Success? ==> (r.value.doc.Obj? <==> target.Obj?)
    decreases edit, 2
  {
    if target.Leaf? then Failure(TargetNotAnObject)
    else
      var fields := edit.fields;
      var start := if target.Obj? then Obj(AssignPrimitives(target.members, fields, |fields|)) else target;
      ObjectKeys(ArrayKeys(start, fields, |fields|), edit, |fields|)
  }

  /** What the function returns: the rebound `target` if `target = edit[k]` ran, else the document. */
  function Returned(p: Patched): Node {
    if p.rebound.Some? then Annotate(p.rebound.value) else p.doc
  }

  /**
   * The value `recursivePatchCommentJson` returns: it fails exactly when the
   * in-place patch does, and on an object document it is an object or, once
   * `target` was rebound, an array of the edit without comments.
   */
  function Patch(target: Node, edit: Json): (r: Result<Node, PatchError>)
    requires edit.JObj?
    ensures r.Success? <==> PatchNode(target, edit).Success?
    ensures r.Success? && target.Obj? ==>
              r.value.Obj? || (r.value.Arr? && forall i :: 0 <= i < |r.value.elems| ==> r.value.elems[i].ann == Bare)
  {
    var p :- PatchNode(target, edit);
    Success(Returned(p))
  }

  /** Once a key's recursive patch has failed, the remaining keys do not matter. */
  lemma {:induction false} ObjectKeysFailurePersists(p0: Patched, edit: Json, n: nat, m: nat)
    requires edit.JObj? && n <= m <= |edit.fields|
    requires ObjectKeys(p0, edit, n).Failure?
    ensures ObjectKeys(p0, edit, m) == ObjectKeys(p0, edit, n)
    decreases m
  {
    if m > n {
      ObjectKeysFailurePersists(p0, edit, n, m - 1);
    }
  }

  /** The primitive pass: it assigns strictly different primitive values. */
  method AssignPrimitivesPass(orig: seq<Member>, fields: seq<(string, Json)>) returns (ms: seq<Member>)
    ensures ms == AssignPrimitives(orig, fields, |fields|)
  {
    ms := orig;
    for n := 0 to |fields|
      invariant ms == AssignPrimitives(orig, fields, n)
    {
      var k, v := fields[n].0, fields[n].1;
      if IsPrimitive(v) && Differs(orig, k, v) {
        ms := SetMember(ms, k, Leaf(v));
      }
    }
  }

  /** The array pass: it reconciles array values, or rebinds `target`. */
  method ArrayKeysPass(start: Node, fields: seq<(string, Json)>) returns (doc: Node, rebound: Option<Json>)
    ensures Patched(doc, rebound) == ArrayKeys(start, fields, |fields|)
  {
    doc, rebound := start, None;
    for n := 0 to |fields|
      invariant Patched(doc, rebound) == ArrayKeys(start, fields, n)
    {
      var k, v := fields[n].0, fields[n].1;
      if v.JArr? {
        if rebound.Some? || !doc.Obj? {
          rebound := Some(v);
        } else {
          match Find(doc.members, k)
          case Some(Member(_, _, Arr(es))) =>
            var arr := ReconcileArray(es, v.items);
            doc := Obj(SetMember(doc.members, k, Arr(arr)));
          case _ =>
            rebound := Some(v);
        }
      }
    }
  }

  /** The object pass: it patches object values recursively or assigns them. */
  method ObjectKeysPass(arrays: Patched, edit: Json) returns (r: Result<Patched, PatchError>)
    requires edit.JObj?
    ensures r == ObjectKeys(arrays, edit, |edit.fields|)
    decreases edit, 1
  {
    var fields := edit.fields;
    var doc, rebound := arrays.doc, arrays.rebound;
    for n := 0 to |fields|
      invariant ObjectKeys(arrays, edit, n) == Success(Patched(doc, rebound))
    {
      var k, v := fields[n].0, fields[n].1;
      if v.JObj? && rebound.None? && doc.Obj? {
        match Find(doc.members, k)
        case Some(m) =>
          var c := RecursivePatch(m.node, v);
          if c.Failure? {
            ObjectKeysFailurePersists(arrays, edit, n + 1, |fields|);
            return Failure(c.error);
          }
          doc := Obj(SetMember(doc.members, k, c.value.doc));
        case None =>
          doc := Obj(SetMember(doc.members, k, Annotate(v)));
      }
    }
    return Success(Patched(doc, rebound));
  }

  /** The function body: three passes over the edit's keys, mutating the document. */
  method RecursivePatch(target: Node, edit: Json) returns (r: Result<Patched, PatchError>)
    requires edit.JObj?
    ensures r == PatchNode(target, edit)
    decreases edit, 2
  {
    if target.Leaf? {
      return Failure(TargetNotAnObject);
    }
    var doc := target;
    if target.Obj? {
      var ms := AssignPrimitivesPass(target.members, edit.fields);
      doc := Obj(ms);
    }
    var rebound;
    doc, rebound := ArrayKeysPass(doc, edit.fields);
    r := ObjectKeysPass(Patched(doc, rebound), edit);
  }

  // ---------------------------------------------------------------------------
  // What the patch does to each key.
  // ---------------------------------------------------------------------------

  /** The step of the fold at key `n - 1` leaves `k` alone unless it assigns a primitive to `k`. */
  lemma AssignPrimitiveKeepsStep(orig: seq<Member>, fields: seq<(string, Json)>, n: nat, k: string)
    requires 0 < n <= |fields|
    requires fields[n - 1].0 == k ==> !IsPrimitive(fields[n - 1].1)
    ensures Find(AssignPrimitives(orig, fields, n), k) == Find(AssignPrimitives(orig, fields, n - 1), k)
  {
    var k', v := fields[n - 1].0, fields[n - 1].1;
    if IsPrimitive(v) && Differs(orig, k', v) {
      SetMemberOther(AssignPrimitives(orig, fields, n - 1), k', Leaf(v), k);
    }
  }

  lemma {:induction false} AssignPrimitivesKeeps(orig: seq<Member>, fields: seq<(string, Json)>, n: nat, k: string)
    requires n <= |fields|
    requires forall j :: 0 <= j < n && fields[j].0 == k ==> !IsPrimitive(fields[j].1)
    ensures Find(AssignPrimitives(orig, fields, n), k) == Find(orig, k)
  {
    if n > 0 {
      AssignPrimitivesKeeps(orig, fields, n - 1, k);
      AssignPrimitiveKeepsStep(orig, fields, n, k);
    }
  }

  lemma {:induction false} ArrayKeysKeeps(start: Node, fields: seq<(string, Json)>, n: nat, k: string)
    requires start.Obj? && n <= |fields|
    requires forall j :: 0 <= j < n && fields[j].0 == k ==> !fields[j].1.JArr?
    ensures Find(ArrayKeys(start, fields, n).doc.members, k) == Find(start.members, k)
  {
    if n > 0 {
      ArrayKeysKeeps(start, fields, n - 1, k);
      var p := ArrayKeys(start, fields, n - 1);
      var k', v := fields[n - 1].0, fields[n - 1].1;
      if v.JArr? && p.rebound.None? {
        match Find(p.doc.members, k')
        case Some(Member(_, _, Arr(es))) =>
          SetMemberOther(p.doc.members, k', Arr(Reconcile(Walk(es, 0, 0), v.items)), k);
        case _ =>
      }
    }
  }

  lemma {:induction false} ObjectKeysKeeps(p0: Patched, edit: Json, n: nat, k: string)
    requires edit.JObj? && n <= |edit.fields| && p0.doc.Obj?
    requires forall j :: 0 <= j < n && edit.fields[j].0 == k ==> !edit.fields[j].1.JObj?
    requires ObjectKeys(p0, edit, n).Success?
    ensures Find(ObjectKeys(p0, edit, n).value.doc.members, k) == Find(p0.doc.members, k)
  {
    if n > 0 {
      ObjectKeysKeeps(p0, edit, n - 1, k);
      var p := ObjectKeys(p0, edit, n - 1).value;
      var k', v := edit.fields[n - 1].0, edit.fields[n - 1].1;
      if v.JObj? && p.rebound.None? {
        match Find(p.doc.members, k')
        case Some(m) =>
          SetMemberOther(p.doc.members, k', PatchNode(m.node, v).value.doc, k);
        case None =>
          SetMemberOther(p.doc.members, k', Annotate(v), k);
      }
    }
  }

  /** Only the edit's own keys are visited: any other key keeps its value and its comment. */
  lemma PatchKeepsOtherKeys(target: Node, edit: Json, k: string)
    requires target.Obj? && edit.JObj? && k !in KeysOf(edit.fields)
    requires PatchNode(target, edit).Success?
    ensures Find(PatchNode(target, edit).value.doc.members, k) == Find(target.members, k)
  {
    var fields := edit.fields;
    forall j | 0 <= j < |fields|
      ensures fields[j].0 != k
    {
      assert KeysOf(fields)[j] == fields[j].0;
    }
    var start := Obj(AssignPrimitives(target.members, fields, |fields|));
    AssignPrimitivesKeeps(target.members, fields, |fields|, k);
    ArrayKeysKeeps(start, fields, |fields|, k);
    ObjectKeysKeeps(ArrayKeys(start, fields, |fields|), edit, |fields|, k);
  }

  /** The step of the fold that visits primitive key `k`. */
  lemma AssignPrimitiveStep(orig: seq<Member>, ms: seq<Member>, k: string, v: Json)
    requires IsPrimitive(v) && Find(ms, k) == Find(orig, k)
    ensures Find(if Differs(orig, k, v) then SetMember(ms, k, Leaf(v)) else ms, k)
         == Some(Member(k, AnnOf(orig, k), Leaf(v)))
  {
    if !Differs(orig, k, v) {
      var m := Find(orig, k).value;
      assert m == Member(k, m.ann, Leaf(v));
    }
  }

  lemma {:induction false} AssignPrimitivesSets(orig: seq<Member>, fields: seq<(string, Json)>, n: nat, i: nat)
    requires i < n <= |fields| && DistinctKeys(fields) && IsPrimitive(fields[i].1)
    ensures Find(AssignPrimitives(orig, fields, n), fields[i].0)
         == Some(Member(fields[i].0, AnnOf(orig, fields[i].0), Leaf(fields[i].1)))
  {
    var k := fields[i].0;
    if n == i + 1 {
      assert forall j :: 0 <= j < i ==> fields[j].0 != k;
      AssignPrimitivesKeeps(orig, fields, i, k);
      AssignPrimitiveStep(orig, AssignPrimitives(orig, fields, i), k, fields[i].1);
    } else {
      AssignPrimitivesSets(orig, fields, n - 1, i);
      AssignPrimitiveKeepsStep(orig, fields, n, k);
    }
  }

  /**
   * A primitive edit key ends up holding the edit's value and keeps the comment
   * it had, whatever it held before (an object replaced by a number keeps its comment).
   */
  lemma PatchPrimitiveKey(target: Node, edit: Json, i: nat)
    requires target.Obj? && edit.JObj? && DistinctKeys(edit.fields)
    requires i < |edit.fields| && IsPrimitive(edit.fields[i].1)
    requires PatchNode(target, edit).Success?
    ensures Find(PatchNode(target, edit).value.doc.members, edit.fields[i].0)
         == Some(Member(edit.fields[i].0, AnnOf(target.members, edit.fields[i].0), Leaf(edit.fields[i].1)))
  {
    var fields := edit.fields;
    var k := fields[i].0;
    var start := Obj(AssignPrimitives(target.members, fields, |fields|));
    AssignPrimitivesSets(target.members, fields, |fields|, i);
    ArrayKeysKeeps(start, fields, |fields|, k);
    ObjectKeysKeeps(ArrayKeys(start, fields, |fields|), edit, |fields|, k);
  }

  /** What the object pass leaves under an object-valued key `k`, given the member it had. */
  predicate ObjectKeyOutcome(before: Option<Member>, after: Option<Member>, k: string, e: Json)
    requires e.JObj?
  {
    match before
    case None => after == Some(Member(k, Bare, Annotate(e)))
    case Some(m) =>
      PatchNode(m.node, e).Success? && after == Some(Member(k, m.ann, PatchNode(m.node, e).value.doc))
  }

  lemma {:induction false} ObjectKeysSets(p0: Patched, edit: Json, n: nat, i: nat)
    requires edit.JObj? && i < n <= |edit.fields| && DistinctKeys(edit.fields)
    requires p0.doc.Obj? && p0.rebound.None? && edit.fields[i].1.JObj?
    requires ObjectKeys(p0, edit, n).Success?
    ensures ObjectKeyOutcome(Find(p0.doc.members, edit.fields[i].0),
                             Find(ObjectKeys(p0, edit, n).value.doc.members, edit.fields[i].0),
                             edit.fields[i].0, edit.fields[i].1)
  {
    var k, e := edit.fields[i].0, edit.fields[i].1;
    var p := ObjectKeys(p0, edit, n - 1).value;
    if n == i + 1 {
      ObjectKeysKeeps(p0, edit, i, k);
    } else {
      ObjectKeysSets(p0, edit, n - 1, i);
      var k', v := edit.fields[n - 1].0, edit.fields[n - 1].1;
      if v.JObj? {
        match Find(p.doc.members, k')
        case Some(m) =>
          SetMemberOther(p.doc.members, k', PatchNode(m.node, v).value.doc, k);
        case None =>
          SetMemberOther(p.doc.members, k', Annotate(v), k);
      }
    }
  }

  /**
   * An object-valued edit key that the document already has is patched
   * recursively in place (its comment and the nested comments stay); one the
   * document lacks is assigned the edit's object. This holds as long as
   * `target` was not rebound by an array key.
   */
  lemma PatchObjectKey(target: Node, edit: Json, i: nat)
    requires target.Obj? && edit.JObj? && DistinctKeys(edit.fields)
    requires i < |edit.fields| && edit.fields[i].1.JObj?
    requires PatchNode(target, edit).Success? && PatchNode(target, edit).value.rebound.None?
    ensures ObjectKeyOutcome(Find(target.members, edit.fields[i].0),
                             Find(PatchNode(target, edit).value.doc.members, edit.fields[i].0),
                             edit.fields[i].0, edit.fields[i].1)
  {
    var fields := edit.fields;
    var k := fields[i].0;
    var start := Obj(AssignPrimitives(target.members, fields, |fields|));
    AssignPrimitivesKeeps(target.members, fields, |fields|, k);
    ArrayKeysKeeps(start, fields, |fields|, k);
    ObjectKeysSets(ArrayKeys(start, fields, |fields|), edit, |fields|, i);
  }

  /** Whether the document holds an array under `k`. */
  predicate HoldsArray(ms: seq<Member>, k: string) {
    Find(ms, k).Some? && Find(ms, k).value.node.Arr?
  }

  /**
   * While every array key of the edit meets an array in the document, the array
   * pass reconciles in place: `target` is never rebound, and a key holding an
   * array still holds one.
   */
  lemma {:induction false} ArrayKeysArrays(start: Node, fields: seq<(string, Json)>, n: nat, k: string)
    requires start.Obj? && n <= |fields|
    requires forall j :: 0 <= j < n && fields[j].1.JArr? ==> HoldsArray(start.members, fields[j].0)
    requires HoldsArray(start.members, k)
    ensures ArrayKeys(start, fields, n).rebound.None?
    ensures HoldsArray(ArrayKeys(start, fields, n).doc.members, k)
  {
    if n > 0 {
      ArrayKeysArrays(start, fields, n - 1, k);
      var p := ArrayKeys(start, fields, n - 1);
      var k', v := fields[n - 1].0, fields[n - 1].1;
      if v.JArr? {
        ArrayKeysArrays(start, fields, n - 1, k');
        var m := Find(p.doc.members, k').value;
        var a := Arr(Reconcile(Walk(m.node.elems, 0, 0), v.items));
        assert ArrayKeys(start, fields, n) == Patched(Obj(SetMember(p.doc.members, k', a)), None);
        if k != k' {
          SetMemberOther(p.doc.members, k', a, k);
        }
      }
    }
  }

  /** Under the same condition, array key `i` holds the reconciliation of the array it had. */
  lemma {:induction false} ArrayKeysSets(start: Node, fields: seq<(string, Json)>, n: nat, i: nat)
    requires start.Obj? && i < n <= |fields| && DistinctKeys(fields) && fields[i].1.JArr?
    requires forall j :: 0 <= j < n && fields[j].1.JArr? ==> HoldsArray(start.members, fields[j].0)
    requires HoldsArray(start.members, fields[i].0)
    ensures
      var k := fields[i].0;
      var m := Find(start.members, k).value;
      Find(ArrayKeys(start, fields, n).doc.members, k)
        == Some(Member(k, m.ann, Arr(Reconcile(Walk(m.node.elems, 0, 0), fields[i].1.items))))
  {
    var k := fields[i].0;
    var p := ArrayKeys(start, fields, n - 1);
    if n == i + 1 {
      assert forall j :: 0 <= j < i ==> fields[j].0 != k;
      ArrayKeysKeeps(start, fields, i, k);
      ArrayKeysArrays(start, fields, i, k);
    } else {
      ArrayKeysSets(start, fields, n - 1, i);
      var k', v := fields[n - 1].0, fields[n - 1].1;
      if v.JArr? {
        ArrayKeysArrays(start, fields, n - 1, k');
        var m := Find(p.doc.members, k').value;
        SetMemberOther(p.doc.members, k', Arr(Reconcile(Walk(m.node.elems, 0, 0), v.items)), k);
      }
    }
  }

  /**
   * An array-valued edit key meeting an array in the document: when every array
   * key of the edit does, the array is reconciled in place (keeping its comment
   * and the comments of the elements kept), and the patched document itself is
   * what the function returns.
   */
  lemma PatchArrayKey(target: Node, edit: Json, i: nat)
    requires target.Obj? && edit.JObj? && DistinctKeys(edit.fields)
    requires i < |edit.fields| && edit.fields[i].1.JArr?
    requires forall j :: 0 <= j < |edit.fields| && edit.fields[j].1.JArr? ==> HoldsArray(target.members, edit.fields[j].0)
    requires HoldsArray(target.members, edit.fields[i].0)
    requires PatchNode(target, edit).Success?
    ensures Patch(target, edit) == Success(PatchNode(target, edit).value.doc)
    ensures
      var k := edit.fields[i].0;
      var m := Find(target.members, k).value;
      Find(PatchNode(target, edit).value.doc.members, k)
        == Some(Member(k, m.ann, Arr(Reconcile(Walk(m.node.elems, 0, 0), edit.fields[i].1.items))))
  {
    var fields := edit.fields;
    var k := fields[i].0;
    var start := Obj(AssignPrimitives(target.members, fields, |fields|));
    forall j | 0 <= j < |fields| && fields[j].1.JArr?
      ensures HoldsArray(start.members, fields[j].0)
    {
      AssignPrimitivesKeeps(target.members, fields, |fields|, fields[j].0);
    }
    AssignPrimitivesKeeps(target.members, fields, |fields|, k);
    ArrayKeysArrays(start, fields, |fields|, k);
    ArrayKeysSets(start, fields, |fields|, i);
    ObjectKeysKeeps(ArrayKeys(start, fields, |fields|), edit, |fields|, k);
  }

  /** A document with one commented array key, patched with an array under that key. */
  lemma PatchOneArrayKey(k: string, c: Ann, es: seq<Elem>, items: seq<Json>)
    ensures Patch(Obj([Member(k, c, Arr(es))]), JObj([(k, JArr(items))]))
         == Success(Obj([Member(k, c, Arr(Reconcile(Walk(es, 0, 0), items)))]))
  {
    var ms := [Member(k, c, Arr(es))];
    var edit := JObj([(k, JArr(items))]);
    var ms' := [Member(k, c, Arr(Reconcile(Walk(es, 0, 0), items)))];
    assert AssignPrimitives(ms, edit.fields, 1) == ms;
    assert SetMember(ms, k, Arr(Reconcile(Walk(es, 0, 0), items))) == ms';
    assert ArrayKeys(Obj(ms), edit.fields, 1) == Patched(Obj(ms'), None);
    assert ObjectKeys(Patched(Obj(ms'), None), edit, 1) == Success(Patched(Obj(ms'), None));
  }

  /** The insertion test on a whole document: `{arr: [a, b, c]}`, elements commented, patched with `{arr: [d, a, b, b, c, f]}`. */
  lemma PatchInsertScenario()
    ensures
      var a, b, c := Noted("a"), Noted("b"), Noted("c");
      var items := [JStr("d"), JStr("a"), JStr("b"), JStr("b"), JStr("c"), JStr("f")];
      Patch(Obj([Member("arr", Bare, Arr([a, b, c]))]), JObj([("arr", JArr(items))]))
        == Success(Obj([Member("arr", Bare,
                               Arr([Fresh(JStr("d")), a, b, Fresh(JStr("b")), c, Fresh(JStr("f"))]))]))
  {
    var items := [JStr("d"), JStr("a"), JStr("b"), JStr("b"), JStr("c"), JStr("f")];
    PatchOneArrayKey("arr", Bare, [Noted("a"), Noted("b"), Noted("c")], items);
    ReconcileInsertScenario();
  }

  // ---------------------------------------------------------------------------
  // Patching with the document's own value.
  // ---------------------------------------------------------------------------

  lemma {:induction false} FindFirst(ms: seq<Member>, i: nat)
    requires i < |ms| && forall j :: 0 <= j < i ==> ms[j].key != ms[i].key
    ensures Find(ms, ms[i].key) == Some(ms[i])
  {
    if i > 0 {
      FindFirst(ms[1..], i - 1);
    }
  }

  /** The keys and plain values of an object, member by member. */
  lemma ErasedFields(ms: seq<Member>, fields: seq<(string, Json)>)
    requires Erase(Obj(ms)) == JObj(fields)
    ensures |ms| == |fields|
    ensures forall j :: 0 <= j < |fields| ==> fields[j] == (ms[j].key, Erase(ms[j].node))
  {
  }

  /** The `i`-th key of an object is found at its own member, whose value it erases to. */
  lemma ErasedMember(ms: seq<Member>, fields: seq<(string, Json)>, i: nat)
    requires Erase(Obj(ms)) == JObj(fields) && DistinctKeys(fields) && i < |fields|
    ensures i < |ms| && ms[i].key == fields[i].0 && Erase(ms[i].node) == fields[i].1
    ensures Find(ms, fields[i].0) == Some(ms[i])
  {
    ErasedFields(ms, fields);
    FindFirst(ms, i);
  }

  /** The kind of a node is the kind of its plain value. */
  lemma ErasedKind(n: Node)
    ensures IsPrimitive(Erase(n)) ==> n == Leaf(Erase(n))
    ensures Erase(n).JArr? ==> n.Arr? && Erases(n.elems) == Erase(n).items
    ensures Erase(n).JObj? ==> n.Obj?
  {
  }

  lemma {:induction false} AssignPrimitivesIdentity(ms: seq<Member>, fields: seq<(string, Json)>, n: nat)
    requires Erase(Obj(ms)) == JObj(fields) && DistinctKeys(fields) && n <= |fields|
    ensures AssignPrimitives(ms, fields, n) == ms
  {
    if n > 0 {
      AssignPrimitivesIdentity(ms, fields, n - 1);
      ErasedMember(ms, fields, n - 1);
      ErasedKind(ms[n - 1].node);
    }
  }

  lemma {:induction false} ArrayKeysIdentity(ms: seq<Member>, fields: seq<(string, Json)>, n: nat)
    requires Erase(Obj(ms)) == JObj(fields) && DistinctKeys(fields) && n <= |fields|
    ensures ArrayKeys(Obj(ms), fields, n) == Patched(Obj(ms), None)
  {
    if n > 0 {
      ArrayKeysIdentity(ms, fields, n - 1);
      var v := fields[n - 1].1;
      if v.JArr? {
        ErasedMember(ms, fields, n - 1);
        ErasedKind(ms[n - 1].node);
        IsEqualReflexive(v);
        ReconcileKeepsEqual(ms[n - 1].node.elems, v.items, 0);
        SetMemberSame(ms, fields[n - 1].0, ms[n - 1]);
      }
    }
  }

  lemma {:induction false} ObjectKeysIdentity(ms: seq<Member>, edit: Json, n: nat)
    requires edit.JObj? && Erase(Obj(ms)) == edit && UniqueKeys(edit) && n <= |edit.fields|
    ensures ObjectKeys(Patched(Obj(ms), None), edit, n) == Success(Patched(Obj(ms), None))
    decreases edit, 1, n
  {
    if n > 0 {
      ObjectKeysIdentity(ms, edit, n - 1);
      var v := edit.fields[n - 1].1;
      if v.JObj? {
        ErasedMember(ms, edit.fields, n - 1);
        ErasedKind(ms[n - 1].node);
        PatchIdentity(ms[n - 1].node, v);
        SetMemberSame(ms, edit.fields[n - 1].0, ms[n - 1]);
      }
    }
  }

  /**
   * Patching a document with its own plain value changes nothing: every value
   * and every comment stays, at every depth, and the document itself is returned.
   */
  lemma {:induction false} PatchIdentity(target: Node, edit: Json)
    requires target.Obj? && edit.JObj? && Erase(target) == edit && UniqueKeys(edit)
    ensures PatchNode(target, edit) == Success(Patched(target, None))
    ensures Patch(target, edit) == Success(target)
    decreases edit, 2
  {
    AssignPrimitivesIdentity(target.members, edit.fields, |edit.fields|);
    ArrayKeysIdentity(target.members, edit.fields, |edit.fields|);
    ObjectKeysIdentity(target.members, edit, |edit.fields|);
  }

  // ---------------------------------------------------------------------------
  // `target = edit[k]`: an array key the document does not hold as an array.
  // ---------------------------------------------------------------------------

  lemma {:induction false} ArrayKeysRebinds(start: Node, fields: seq<(string, Json)>, n: nat, i: nat)
    requires start.Obj? && i < n <= |fields| && DistinctKeys(fields)
    requires fields[i].1.JArr? && !HoldsArray(start.members, fields[i].0)
    ensures ArrayKeys(start, fields, n).rebound.Some?
  {
    if n == i + 1 {
      assert forall j :: 0 <= j < i ==> fields[j].0 != fields[i].0;
      ArrayKeysKeeps(start, fields, i, fields[i].0);
    } else {
      ArrayKeysRebinds(start, fields, n - 1, i);
    }
  }

  /**
   * One array key missing from the document (or not an array there) makes the
   * function return an array of the edit instead of the patched document.
   */
  lemma PatchReturnsEditArray(target: Node, edit: Json, i: nat)
    requires target.Obj? && edit.JObj? && DistinctKeys(edit.fields)
    requires i < |edit.fields| && edit.fields[i].1.JArr? && !HoldsArray(target.members, edit.fields[i].0)
    requires PatchNode(target, edit).Success?
    ensures PatchNode(target, edit).value.rebound.Some?
    ensures Patch(target, edit).Success? && Patch(target, edit).value.Arr?
  {
    var fields := edit.fields;
    var start := Obj(AssignPrimitives(target.members, fields, |fields|));
    assert forall j :: 0 <= j < |fields| && fields[j].0 == fields[i].0 ==> j == i;
    AssignPrimitivesKeeps(target.members, fields, |fields|, fields[i].0);
    ArrayKeysRebinds(start, fields, |fields|, i);
  }

  /** The edit of the test "patches an array onto an empty object". */
  function ReferencesEdit(): Json {
    JObj([("references", JArr([
      JObj([("path", JStr("./tsconfig.types.json"))]),
      JObj([("path", JStr("./tsconfig.cjs.json"))]),
      JObj([("path", JStr("./tsconfig.mjs.json"))])]))])
  }

  /** As written, patching `{}` with `{references: [...]}` returns the bare array. */
  lemma PatchArrayOntoEmptyObject()
    ensures Patch(Obj([]), ReferencesEdit()) == Success(Annotate(ReferencesEdit().fields[0].1))
  {
    var edit := ReferencesEdit();
    assert AssignPrimitives([], edit.fields, 1) == [];
    assert ArrayKeys(Obj([]), edit.fields, 1) == Patched(Obj([]), Some(edit.fields[0].1));
  }

  lemma EraseArr(es: seq<Elem>)
    ensures Erase(Arr(es)) == JArr(Erases(es))
  {
  }

  /** The array pass as evidently intended: a missing or non-array value is replaced by `edit[k]`. */
  function ArrayKeyIntended(ms: seq<Member>, k: string, items: seq<Json>): seq<Member> {
    match Find(ms, k)
    case Some(Member(_, _, Arr(es))) => SetMember(ms, k, Arr(ReconcileIntended(Walk(es, 0, 0), items)))
    case _ => SetMember(ms, k, Annotate(JArr(items)))
  }

  /** With the intended `target[k] = edit[k]` an array key always ends up holding the edit's array. */
  lemma ArrayKeyIntendedSets(ms: seq<Member>, k: string, items: seq<Json>)
    ensures Find(ArrayKeyIntended(ms, k, items), k).Some?
    ensures Find(ArrayKeyIntended(ms, k, items), k).value.ann == AnnOf(ms, k)
    ensures IsEqual(Erase(Find(ArrayKeyIntended(ms, k, items), k).value.node), JArr(items))
  {
    match Find(ms, k)
    case Some(Member(_, _, Arr(es))) =>
      var r := ReconcileIntended(Walk(es, 0, 0), items);
      ReconcileIntendedMatchesEdit(Walk(es, 0, 0), items);
      EraseArr(r);
    case _ =>
      EraseAnnotate(JArr(items));
      IsEqualReflexive(JArr(items));
  }

  /** With the intended `target[k] = edit[k]`, `{}` patched with `{references: [...]}` becomes that object. */
  lemma ArrayOntoEmptyObjectIntended()
    ensures Obj(ArrayKeyIntended([], "references", ReferencesEdit().fields[0].1.items)) == Annotate(ReferencesEdit())
  {
  }

  // The test with two equal objects in the array.

  function NotedObject(s: string): Elem {
    Elem(Commented(s), Obj([Member("a", Bare, Leaf(JNum(1)))]))
  }

  /** Old `[{a:1}, "b", {a:1}]` (each commented) patched with `["_", {a:1}, "b", "d", {a:1}]`. */
  lemma ReconcileEqualObjectsScenario()
    ensures Reconcile(Walk([NotedObject("a"), Noted("b"), NotedObject("eh")], 0, 0),
                      [JStr("_"), JObj([("a", JNum(1))]), JStr("b"), JStr("d"), JObj([("a", JNum(1))])])
         == [Fresh(JStr("_")), NotedObject("a"), Noted("b"), Fresh(JStr("d")), NotedObject("eh")]
  {
    var one := JObj([("a", JNum(1))]);
    var items := [JStr("_"), one, JStr("b"), JStr("d"), one];
    var a, b, eh := NotedObject("a"), Noted("b"), NotedObject("eh");
    var u, d := Fresh(JStr("_")), Fresh(JStr("d"));
    assert Erase(a.node) == one && Erase(eh.node) == one;
    IsEqualReflexive(one);
    assert IsEqual(Later(items, 0)[1], one) && IsEqual(Later(items, 3)[1], one);
    assert Step(Walk([a, b, eh], 0, 0), items) == Walk([u, a, b, eh], 1, 1);
    assert Step(Walk([u, a, b, eh], 1, 1), items) == Walk([u, a, b, eh], 2, 2);
    assert Step(Walk([u, a, b, eh], 2, 2), items) == Walk([u, a, b, eh], 3, 3);
    assert Step(Walk([u, a, b, eh], 3, 3), items) == Walk([u, a, b, d, eh], 4, 4);
    assert Step(Walk([u, a, b, d, eh], 4, 4), items) == Walk([u, a, b, d, eh], 5, 5);
  }
}
