/** Handles to exception objects, and the reference counts they keep. */
module ExceptionPtr {

  /** An exception object. It is destroyed when its last reference is given up. */
  class Exception {
    var refs: nat
    var destroyed: bool

    constructor (others: nat)
      ensures refs == others && !destroyed
    {
      refs := others;
      destroyed := false;
    }

    method AddRef()
      requires !destroyed
      modifies this
      ensures refs == old(refs) + 1 && !destroyed
    {
      refs := refs + 1;
    }

    method Release()
      requires !destroyed && refs > 0
      modifies this
      ensures refs == old(refs) - 1 && (destroyed <==> refs == 0)
    {
      refs := refs - 1;
      destroyed := refs == 0;
    }
  }

  /** One for every reference a handle holds on `e`. */
  function Holds(p: Exception?, e: Exception): nat {
    if p == e then 1 else 0
  }

  class Handle {
    var obj: Exception?

    constructor Null()
      ensures obj == null
    {
      obj := null;
    }

    /** A handle for an object that may be thrown again. */
    constructor Adopt(e: Exception?)
      requires e != null ==> !e.destroyed
      modifies e
      ensures obj == e && (e != null ==> e.refs == old(e.refs) + 1 && !e.destroyed)
    {
      obj := e;
      new;
      if obj != null {
        obj.AddRef();
      }
    }

    constructor Copy(other: Handle)
      requires other.obj != null ==> !other.obj.destroyed
      modifies other.obj
      ensures obj == other.obj && (obj != null ==> obj.refs == old(other.obj.refs) + 1 && !obj.destroyed)
    {
      obj := other.obj;
      new;
      if obj != null {
        obj.AddRef();
      }
    }

    constructor Move(other: Handle)
      modifies other
      ensures obj == old(other.obj) && other.obj == null
    {
      obj := other.obj;
      new;
      other.obj := null;
    }

    /** The end of a handle. */
    method Destroy()
      requires obj != null ==> !obj.destroyed && obj.refs > 0
      modifies obj
      ensures obj != null ==> obj.refs == old(obj.refs) - 1 && (obj.destroyed <==> obj.refs == 0)
    {
      if obj != null {
        obj.Release();
      }
    }

    method Swap(other: Handle)
      modifies this, other
      ensures obj == old(other.obj) && other.obj == old(obj)
    {
      var tmp := obj;
      obj := other.obj;
      other.obj := tmp;
    }

    /** Copy assignment, to itself too: the new reference is taken before the old one is given up. */
    method Assign(other: Handle)
      requires obj != null ==> !obj.destroyed && obj.refs > 0
      requires other.obj != null ==> !other.obj.destroyed && other.obj.refs > 0
      modifies this, obj, other.obj
      ensures obj == old(other.obj) && other.obj == old(other.obj)
      ensures forall e | e == obj || e == old(obj) ::
        e != null ==> e.refs == old(e.refs) + Holds(obj, e) - Holds(old(obj), e)
      ensures forall e | e == obj || e == old(obj) :: e != null ==> (e.destroyed <==> e.refs == 0)
    {
      var temp := new Handle.Copy(other);
      temp.Swap(this);
      temp.Destroy();
    }

    /** Move assignment; to itself it changes nothing. */
    method MoveAssign(other: Handle)
      requires obj != null ==> !obj.destroyed && obj.refs > 0
      modifies this, other, obj
      ensures obj == old(other.obj)
      ensures other != this ==> other.obj == null
      ensures old(obj) != null && other == this ==> obj.refs == old(obj.refs) && obj.destroyed == old(obj.destroyed)
      ensures old(obj) != null && other != this ==> old(obj).refs == old(obj.refs) - 1 && (old(obj).destroyed <==> old(obj).refs == 0)
    {
      var temp := new Handle.Move(other);
      temp.Swap(this);
      temp.Destroy();
    }
  }

  // ----- runs -----

  datatype Op =
    | Null
    | Hold(others: nat)       // a new object, and a first handle for it
    | Adopt(e: Exception?)    // a further handle for an object that is alive, or for none
    | GiveUp(d: Exception)    // one of the references that are no handles'
    | Copy(i: nat)
    | Move(i: nat)
    | Assign(i: nat, j: nat)
    | MoveAssign(i: nat, j: nat)
    | Swap(i: nat, j: nat)
    | Destroy(i: nat)

  predicate Possible(n: nat, op: Op) {
    match op
    case Null => true
    case Hold(_) => true
    case Adopt(_) => true
    case GiveUp(_) => true
    case Copy(i) => i < n
    case Move(i) => i < n
    case Assign(i, j) => i < n && j < n
    case MoveAssign(i, j) => i < n && j < n
    case Swap(i, j) => i < n && j < n
    case Destroy(i) => i < n
  }

  /** What the handles refer to after an operation; `made` is the object it made, if it made one. */
  function After(objs: seq<Exception?>, op: Op, made: Exception?): seq<Exception?>
    requires Possible(|objs|, op)
  {
    match op
    case Null => objs + [null]
    case Hold(_) => objs + [made]
    case Adopt(e) => objs + [e]
    case GiveUp(_) => objs
    case Copy(i) => objs + [objs[i]]
    case Move(i) => objs[i := null] + [objs[i]]
    case Assign(i, j) => objs[i := objs[j]]
    case MoveAssign(i, j) => if i == j then objs else objs[i := objs[j]][j := null]
    case Swap(i, j) => objs[i := objs[j]][j := objs[i]]
    case Destroy(i) => objs[..i] + objs[i + 1..]
  }

  /** What an operation does to the references that are no handles'. */
  ghost predicate Kept(op: Op, made: Exception?, before: map<Exception, nat>, after: map<Exception, nat>) {
    match op
    case Hold(n) => made != null && made !in before && after == before[made := n]
    case GiveUp(d) => d in before && before[d] > 0 && after == before[d := before[d] - 1]
    case _ => after == before
  }

  /** The number of handles that refer to `e`. */
  function Count(objs: seq<Exception?>, e: Exception): nat {
    if objs == [] then 0 else Count(objs[..|objs| - 1], e) + Holds(objs[|objs| - 1], e)
  }

  lemma {:induction false} CountAppend(objs: seq<Exception?>, p: Exception?, e: Exception)
    ensures Count(objs + [p], e) == Count(objs, e) + Holds(p, e)
  {
    assert (objs + [p])[..|objs|] == objs;
  }

  lemma {:induction false} CountUpdate(objs: seq<Exception?>, i: nat, p: Exception?, e: Exception)
    requires i < |objs|
    ensures Count(objs[i := p], e) + Holds(objs[i], e) == Count(objs, e) + Holds(p, e)
  {
    var n := |objs| - 1;
    if i < n {
      CountUpdate(objs[..n], i, p, e);
      assert objs[i := p][..n] == objs[..n][i := p];
    } else {
      assert objs[i := p][..n] == objs[..n];
    }
  }

  lemma {:induction false} CountRemove(objs: seq<Exception?>, i: nat, e: Exception)
    requires i < |objs|
    ensures Count(objs[..i] + objs[i + 1..], e) + Holds(objs[i], e) == Count(objs, e)
  {
    var n := |objs| - 1;
    if i < n {
      CountRemove(objs[..n], i, e);
      CountAppend(objs[..n][..i] + objs[..n][i + 1..], objs[n], e);
      assert objs[..i] + objs[i + 1..] == objs[..n][..i] + objs[..n][i + 1..] + [objs[n]];
    } else {
      assert objs[..i] + objs[i + 1..] == objs[..n];
    }
  }

  lemma {:induction false} CountPositive(objs: seq<Exception?>, i: nat, e: Exception)
    requires i < |objs| && objs[i] == e
    ensures Count(objs, e) > 0
  {
    CountRemove(objs, i, e);
  }

  lemma {:induction false} CountTwo(objs: seq<Exception?>, i: nat, p: Exception?, j: nat, q: Exception?, e: Exception)
    requires i < |objs| && j < |objs|
    ensures Count(objs[i := p][j := q], e) ==
      Count(objs, e) - Holds(objs[i], e) + Holds(p, e) - Holds(objs[i := p][j], e) + Holds(q, e)
  {
    CountUpdate(objs, i, p, e);
    CountUpdate(objs[i := p], j, q, e);
  }

  /** An operation changes the number of handles for an object by what it copies and drops. */
  function Gained(objs: seq<Exception?>, op: Op, made: Exception?, e: Exception): int
    requires Possible(|objs|, op)
  {
    match op
    case Hold(_) => Holds(made, e)
    case Adopt(d) => Holds(d, e)
    case Copy(i) => Holds(objs[i], e)
    case Assign(i, j) => Holds(objs[j], e) - Holds(objs[i], e)
    case MoveAssign(i, j) => if i == j then 0 else 0 - Holds(objs[i], e)
    case Destroy(i) => 0 - Holds(objs[i], e)
    case _ => 0
  }

  lemma {:induction false} CountAfter(objs: seq<Exception?>, op: Op, made: Exception?, e: Exception)
    requires Possible(|objs|, op)
    ensures Count(After(objs, op, made), e) == Count(objs, e) + Gained(objs, op, made, e)
  {
    match op
    case Null => CountAppend(objs, null, e);
    case Hold(_) => CountAppend(objs, made, e);
    case Adopt(d) => CountAppend(objs, d, e);
    case GiveUp(_) =>
    case Copy(i) => CountAppend(objs, objs[i], e);
    case Move(i) => CountUpdate(objs, i, null, e); CountAppend(objs[i := null], objs[i], e);
    case Assign(i, j) => CountUpdate(objs, i, objs[j], e);
    case MoveAssign(i, j) => CountTwo(objs, i, objs[j], j, null, e);
    case Swap(i, j) => CountTwo(objs, i, objs[j], j, objs[i], e);
    case Destroy(i) => CountRemove(objs, i, e);
  }

  lemma AfterKnown(objs: seq<Exception?>, op: Op, made: Exception?, known: set<Exception>)
    requires Possible(|objs|, op) && forall i | 0 <= i < |objs| :: objs[i] != null ==> objs[i] in known
    requires (made != null ==> made in known) && (op.Adopt? && op.e != null ==> op.e in known)
    ensures forall i | 0 <= i < |After(objs, op, made)| :: After(objs, op, made)[i] != null ==> After(objs, op, made)[i] in known
  {
    var next := After(objs, op, made);
    forall i | 0 <= i < |next| && next[i] != null ensures next[i] in known {
      assert next[i] in objs || next[i] == made || (op.Adopt? && next[i] == op.e);
    }
  }

  /** All handles of a program. */
  class Program {
    var handles: seq<Handle>
    ghost var objs: seq<Exception?>
    // Every object that was ever held, with the references that no handle accounts for.
    ghost var others: map<Exception, nat>

    /** An object's count is its other references and one for each handle that refers to it, and it lives as
        long as there are any. */
    ghost predicate Counted(e: Exception)
      reads this, e
    {
      e in others && e.refs == others[e] + Count(objs, e) && (e.destroyed <==> e.refs == 0)
    }

    ghost predicate Valid()
      reads this, handles, others.Keys
    {
      && |objs| == |handles|
      && (forall i | 0 <= i < |handles| :: handles[i].obj == objs[i])
      && (forall i, j | 0 <= i < j < |handles| :: handles[i] != handles[j])
      && (forall i | 0 <= i < |objs| :: objs[i] != null ==> objs[i] in others)
      && (forall e | e in others :: Counted(e))
    }

    constructor ()
      ensures Valid() && objs == [] && others == map[]
    {
      handles := [];
      objs := [];
      others := map[];
    }

    /** No handle ever refers to a destroyed object. */
    lemma NeverDangling(i: nat)
      requires Valid() && i < |handles|
      ensures objs[i] != null ==> objs[i] in others && !objs[i].destroyed && objs[i].refs > others[objs[i]]
    {
      if objs[i] != null {
        CountPositive(objs, i, objs[i]);
        assert Counted(objs[i]);
      }
    }

    /** Notes an operation that is done, when the counts have followed it. */
    ghost method Note(op: Op, made: Exception?)
      requires Possible(|objs|, op) && |handles| == |After(objs, op, made)|
      requires forall i | 0 <= i < |handles| :: handles[i].obj == After(objs, op, made)[i]
      requires forall i, j | 0 <= i < j < |handles| :: handles[i] != handles[j]
      requires forall i | 0 <= i < |objs| :: objs[i] != null ==> objs[i] in others
      requires made != null ==> made in others
      requires op.Adopt? && op.e != null ==> op.e in others
      requires forall e | e in others :: e.refs == others[e] + Count(objs, e) + Gained(objs, op, made, e)
      requires forall e | e in others :: e.destroyed <==> e.refs == 0
      modifies this`objs
      ensures Valid() && objs == After(old(objs), op, made)
    {
      ghost var next := After(objs, op, made);
      forall e | e in others ensures e.refs == others[e] + Count(next, e) {
        CountAfter(objs, op, made, e);
      }
      AfterKnown(objs, op, made, others.Keys);
      objs := next;
    }

    method PerformNull()
      requires Valid()
      modifies this`handles, this`objs
      ensures Valid() && objs == After(old(objs), Null, null)
    {
      var p := new Handle.Null();
      assert forall e | e in others :: Counted(e);
      handles := handles + [p];
      Note(Null, null);
    }

    /** Makes a new object, with references of its own, and a handle for it. */
    method PerformHold(n: nat) returns (e: Exception)
      requires Valid()
      modifies this
      ensures Valid() && fresh(e) && e !in old(others) && others == old(others)[e := n] && objs == After(old(objs), Hold(n), e)
    {
      e := new Exception(n);
      var p := new Handle.Adopt(e);
      assert forall d | d in others :: Counted(d);
      Uncounted(objs, e);
      others := others[e := n];
      handles := handles + [p];
      Note(Hold(n), e);
    }

    /** A further handle for an object that is alive. */
    method PerformAdopt(e: Exception?)
      requires Valid() && (e != null ==> e in others && !e.destroyed)
      modifies this`handles, this`objs, e
      ensures Valid() && objs == After(old(objs), Op.Adopt(e), null)
    {
      assert forall d | d in others :: Counted(d);
      var p := new Handle.Adopt(e);
      handles := handles + [p];
      Note(Op.Adopt(e), null);
    }

    /** One of the other references to an object is given up, perhaps the last of all. */
    method PerformGiveUp(e: Exception)
      requires Valid() && e in others && others[e] > 0
      modifies this`others, e
      ensures Valid() && others == old(others)[e := old(others)[e] - 1] && objs == old(objs)
    {
      assert forall d | d in others :: Counted(d);
      e.Release();
      others := others[e := others[e] - 1];
    }

    method PerformCopy(i: nat)
      requires Valid() && i < |handles|
      modifies this`handles, this`objs, handles[i].obj
      ensures Valid() && objs == After(old(objs), Op.Copy(i), null)
    {
      NeverDangling(i);
      assert forall e | e in others :: Counted(e);
      var p := new Handle.Copy(handles[i]);
      handles := handles + [p];
      Note(Op.Copy(i), null);
    }

    method PerformMove(i: nat)
      requires Valid() && i < |handles|
      modifies this`handles, this`objs, handles[i]
      ensures Valid() && objs == After(old(objs), Op.Move(i), null)
    {
      assert forall e | e in others :: Counted(e);
      var p := new Handle.Move(handles[i]);
      handles := handles + [p];
      Note(Op.Move(i), null);
    }

    method PerformAssign(i: nat, j: nat)
      requires Valid() && i < |handles| && j < |handles|
      modifies this`objs, handles[i], handles[i].obj, handles[j].obj
      ensures Valid() && objs == After(old(objs), Assign(i, j), null)
    {
      NeverDangling(i);
      NeverDangling(j);
      assert forall e | e in others :: Counted(e);
      handles[i].Assign(handles[j]);
      Note(Assign(i, j), null);
    }

    method PerformMoveAssign(i: nat, j: nat)
      requires Valid() && i < |handles| && j < |handles|
      modifies this`objs, handles[i], handles[i].obj, handles[j]
      ensures Valid() && objs == After(old(objs), MoveAssign(i, j), null)
    {
      NeverDangling(i);
      assert forall e | e in others :: Counted(e);
      handles[i].MoveAssign(handles[j]);
      Note(MoveAssign(i, j), null);
    }

    method PerformSwap(i: nat, j: nat)
      requires Valid() && i < |handles| && j < |handles|
      modifies this`objs, handles[i], handles[j]
      ensures Valid() && objs == After(old(objs), Swap(i, j), null)
    {
      assert forall e | e in others :: Counted(e);
      handles[i].Swap(handles[j]);
      Note(Swap(i, j), null);
    }

    /** Takes out a handle that has been destroyed. */
    method TakeOut(i: nat)
      requires i < |handles| == |objs| && forall j | 0 <= j < |handles| && j != i :: handles[j].obj == objs[j]
      requires forall j, k | 0 <= j < k < |handles| :: handles[j] != handles[k]
      modifies this`handles
      ensures |handles| == |After(objs, Op.Destroy(i), null)|
      ensures forall j | 0 <= j < |handles| :: handles[j].obj == After(objs, Op.Destroy(i), null)[j]
      ensures forall j, k | 0 <= j < k < |handles| :: handles[j] != handles[k]
    {
      ghost var was := handles;
      handles := handles[..i] + handles[i + 1..];
      assert forall m | 0 <= m < |handles| :: handles[m] == was[if m < i then m else m + 1];
    }

    method PerformDestroy(i: nat)
      requires Valid() && i < |handles|
      modifies this`handles, this`objs, handles[i].obj
      ensures Valid() && objs == After(old(objs), Op.Destroy(i), null)
    {
      NeverDangling(i);
      assert forall e | e in others :: Counted(e);
      handles[i].Destroy();
      TakeOut(i);
      Note(Op.Destroy(i), null);
    }

    /** The handles an operation names exist, and so do the references. */
    ghost predicate Allowed(op: Op)
      reads this, others.Keys
    {
      && Possible(|handles|, op)
      && (op.Adopt? && op.e != null ==> op.e in others && !op.e.destroyed)
      && (op.GiveUp? ==> op.d in others && others[op.d] > 0)
    }

    /** Any operation that brings a new handle. */
    method PerformNew(op: Op)
      requires Valid() && Allowed(op) && (op.Null? || op.Hold? || op.Adopt? || op.Copy? || op.Move?)
      modifies this, handles, others.Keys
      ensures Valid() && Possible(|old(objs)|, op)
      ensures exists made :: objs == After(old(objs), op, made) && Kept(op, made, old(others), others)
    {
      match op
      case Null => PerformNull(); assert objs == After(old(objs), op, null);
      case Hold(n) => var e := PerformHold(n); assert objs == After(old(objs), op, e);
      case Adopt(e) => PerformAdopt(e); assert objs == After(old(objs), op, null);
      case Copy(i) => NeverDangling(i); PerformCopy(i); assert objs == After(old(objs), op, null);
      case Move(i) => PerformMove(i); assert objs == After(old(objs), op, null);
    }

    /** Any operation on handles that exist. */
    method PerformOld(op: Op)
      requires Valid() && Allowed(op) && !(op.Null? || op.Hold? || op.Adopt? || op.Copy? || op.Move?)
      modifies this, handles, others.Keys
      ensures Valid() && Possible(|old(objs)|, op)
      ensures exists made :: objs == After(old(objs), op, made) && Kept(op, made, old(others), others)
    {
      match op
      case GiveUp(e) => PerformGiveUp(e); assert objs == After(old(objs), op, null);
      case Assign(i, j) => NeverDangling(i); NeverDangling(j); PerformAssign(i, j); assert objs == After(old(objs), op, null);
      case MoveAssign(i, j) => NeverDangling(i); PerformMoveAssign(i, j); assert objs == After(old(objs), op, null);
      case Swap(i, j) => PerformSwap(i, j); assert objs == After(old(objs), op, null);
      case Destroy(i) => NeverDangling(i); PerformDestroy(i); assert objs == After(old(objs), op, null);
    }

    /** Any operation at all. */
    method Perform(op: Op)
      requires Valid() && Allowed(op)
      modifies this, handles, others.Keys
      ensures Valid() && Possible(|old(objs)|, op)
      ensures exists made :: objs == After(old(objs), op, made) && Kept(op, made, old(others), others)
    {
      if op.Null? || op.Hold? || op.Adopt? || op.Copy? || op.Move? {
        PerformNew(op);
      } else {
        PerformOld(op);
      }
    }
  }

  /** What is in no list of handles has no handles. */
  lemma {:induction false} Uncounted(objs: seq<Exception?>, e: Exception)
    requires e !in objs
    ensures Count(objs, e) == 0
  {
    if objs != [] {
      Uncounted(objs[..|objs| - 1], e);
    }
  }
}
