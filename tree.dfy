/** Path-addressed reads and writes on a document: the read that every component
    uses, the three ways the code sets a value at a path, and the walks that decide
    whether a patch may assign. */
module Tree {
  import opened Json
  import opened KeyPath

  /** Reading along a path, `path.reduce((o, k) => o && typeof o === 'object' ? o[k]
      : undefined, obj)`: `undefined` as soon as the walk leaves an object. */
  function Read(j: Json, p: Path): (r: Json)
    ensures p != [] && r != Undef ==> j.Obj?
    decreases |p|
  {
    if p == [] then j
    else match j
      case Obj(m) => Read(Lookup(m, p[0]), p[1..])
      case _ => Undef
  }

  lemma {:induction false} ReadUndef(p: Path)
    ensures Read(Undef, p) == Undef
  {
  }

  lemma {:induction false} ReadAppend(j: Json, p: Path, q: Path)
    ensures Read(j, p + q) == Read(Read(j, p), q)
    decreases |p|
  {
    if p == [] {
      assert p + q == q;
    } else {
      var pq := p + q;
      assert pq != [] && pq[0] == p[0] && pq[1..] == p[1..] + q;
      if j.Obj? {
        ReadAppend(Lookup(j.members, p[0]), p[1..], q);
      } else {
        assert Read(j, pq) == Undef;
        ReadUndef(q);
      }
    }
  }

  /** Reading along `[a] + r` inside an object is reading `r` from its property `a`. */
  lemma ReadCons(m: seq<Member>, p: Path)
    requires p != []
    ensures Read(Obj(m), p) == Read(Lookup(m, p[0]), p[1..])
  {
  }

  /** Peeling the common first segment off two paths keeps them disjoint. */
  lemma DisjointTail(p: Path, r: Path)
    requires |p| >= 1 && |r| >= 1 && p[0] == r[0] && Disjoint(p, r)
    ensures |p| >= 2 && |r| >= 2 && Disjoint(p[1..], r[1..])
  {
    PrefixTail(p, r);
    PrefixTail(r, p);
  }

  lemma PrefixTail(p: Path, r: Path)
    requires |p| >= 1 && |r| >= 1 && p[0] == r[0]
    ensures (p <= r) == (p[1..] <= r[1..])
  {
    assert p == [p[0]] + p[1..] && r == [r[0]] + r[1..];
  }

  /** Reading a clone sees the clone of what the original holds there. */
  lemma {:induction false} ReadClone(j: Json, p: Path)
    requires WellFormed(j)
    ensures Read(Clone(j), p) == Clone(Read(j, p))
    decreases |p|
  {
    if p != [] && j.Obj? {
      LookupClone(j.members, p[0]);
      LookupWellFormed(j.members, p[0]);
      ReadClone(Lookup(j.members, p[0]), p[1..]);
    }
  }

  // ---------------------------------------------------------------------------
  // The components' `setValue`: missing or non-object intermediates become `{}`.

  function SetIn(m: seq<Member>, p: Path, v: Json): (r: seq<Member>)
    requires |p| >= 1
    ensures |p| == 1 ==> Lookup(r, p[0]) == v
    ensures |p| > 1 ==> Lookup(r, p[0]).Obj?
    decreases |p|
  {
    if |p| == 1 then
      LookupAssign(m, p[0], v, p[0]);
      Assign(m, p[0], v)
    else
      var c := Lookup(m, p[0]);
      var child := Obj(SetIn(if c.Obj? then c.members else [], p[1..], v));
      LookupAssign(m, p[0], child, p[0]);
      Assign(m, p[0], child)
  }

  /** Get after set: reading back the path just written gives the written value. */
  lemma {:induction false} ReadSetIn(m: seq<Member>, p: Path, v: Json)
    requires |p| >= 1
    ensures Read(Obj(SetIn(m, p, v)), p) == v
    decreases |p|
  {
    var c := Lookup(m, p[0]);
    var cm := if c.Obj? then c.members else [];
    if |p| == 1 {
      LookupAssign(m, p[0], v, p[0]);
    } else {
      LookupAssign(m, p[0], Obj(SetIn(cm, p[1..], v)), p[0]);
      ReadSetIn(cm, p[1..], v);
    }
  }

  /** Frame: every path that is neither a prefix nor an extension of the written
      one reads as before. */
  lemma {:induction false} SetInFrame(m: seq<Member>, p: Path, v: Json, r: Path)
    requires |p| >= 1 && Disjoint(p, r)
    ensures Read(Obj(SetIn(m, p, v)), r) == Read(Obj(m), r)
    decreases |p|
  {
    var c := Lookup(m, p[0]);
    var cm := if c.Obj? then c.members else [];
    var child := if |p| == 1 then v else Obj(SetIn(cm, p[1..], v));
    assert SetIn(m, p, v) == Assign(m, p[0], child);
    LookupAssign(m, p[0], child, r[0]);
    assert r != [] by { assert r == [] ==> r <= p; }
    if r[0] == p[0] {
      DisjointTail(p, r);
      SetInFrame(cm, p[1..], v, r[1..]);
      if !c.Obj? {
        ReadUndef(r[1..][1..]);
        ReadUndef(r[1..]);
      }
    }
  }

  /** `setValue` never fails: afterwards every proper prefix of the path holds an object. */
  lemma {:induction false} SetInCreates(m: seq<Member>, p: Path, v: Json, i: nat)
    requires i < |p|
    ensures Read(Obj(SetIn(m, p, v)), p[..i]).Obj?
    decreases |p|
  {
    if i > 0 {
      var c := Lookup(m, p[0]);
      var cm := if c.Obj? then c.members else [];
      assert |p| >= 2;
      var child := Obj(SetIn(cm, p[1..], v));
      assert SetIn(m, p, v) == Assign(m, p[0], child);
      LookupAssign(m, p[0], child, p[0]);
      SetInCreates(cm, p[1..], v, i - 1);
      assert p[..i][0] == p[0] && p[..i][1..] == p[1..][..i - 1];
      ReadCons(Assign(m, p[0], child), p[..i]);
    }
  }

  /** The object's own keys keep their order; the first segment is appended only
      when it was absent. */
  lemma SetInKeys(m: seq<Member>, p: Path, v: Json)
    requires |p| >= 1
    ensures Keys(SetIn(m, p, v)) == if p[0] in Keys(m) then Keys(m) else Keys(m) + [p[0]]
  {
    var c := Lookup(m, p[0]);
    AssignKeys(m, p[0], if |p| == 1 then v else Obj(SetIn(if c.Obj? then c.members else [], p[1..], v)));
  }

  lemma {:induction false} SetInWellFormed(m: seq<Member>, p: Path, v: Json)
    requires |p| >= 1 && WellFormed(Obj(m)) && WellFormed(v)
    ensures WellFormed(Obj(SetIn(m, p, v)))
    decreases |p|
  {
    if |p| == 1 {
      AssignWellFormed(m, p[0], v);
    } else {
      var c := Lookup(m, p[0]);
      LookupWellFormed(m, p[0]);
      var cm := if c.Obj? then c.members else [];
      SetInWellFormed(cm, p[1..], v);
      AssignWellFormed(m, p[0], Obj(SetIn(cm, p[1..], v)));
    }
  }

  // ---------------------------------------------------------------------------
  // Assignment at the end of a successful patch walk: `obj[last] = value`, where
  // `obj` is the object reached along `q`.

  /** Every node along `q`, the root and the end included, is an object. */
  predicate ObjectsAlong(j: Json, q: Path)
    decreases |q|
  {
    j.Obj? && (q == [] || ObjectsAlong(Lookup(j.members, q[0]), q[1..]))
  }

  /** Sets key `k` of the object at `q`; when `q` does not lead through objects
      to an object, nothing is assigned. */
  function AssignAt(j: Json, q: Path, k: string, v: Json): (r: Json)
    ensures r.Obj? <==> j.Obj?
    decreases |q|
  {
    match j
    case Obj(m) =>
      if q == [] then Obj(Assign(m, k, v))
      else
        var c := Lookup(m, q[0]);
        if c.Obj? then Obj(Assign(m, q[0], AssignAt(c, q[1..], k, v))) else j
    case _ => j
  }

  lemma {:induction false} ReadAssignAt(j: Json, q: Path, k: string, v: Json)
    requires ObjectsAlong(j, q)
    ensures Read(AssignAt(j, q, k, v), q + [k]) == v
    decreases |q|
  {
    var m := j.members;
    var p := q + [k];
    if q == [] {
      var m' := Assign(m, k, v);
      assert AssignAt(j, q, k, v) == Obj(m') && p == [k];
      LookupAssign(m, k, v, k);
      ReadCons(m', p);
    } else {
      var c := Lookup(m, q[0]);
      var c' := AssignAt(c, q[1..], k, v);
      var m' := Assign(m, q[0], c');
      assert AssignAt(j, q, k, v) == Obj(m');
      LookupAssign(m, q[0], c', q[0]);
      assert p[0] == q[0] && p[1..] == q[1..] + [k];
      ReadCons(m', p);
      ReadAssignAt(c, q[1..], k, v);
    }
  }

  lemma {:induction false} AssignAtNoOp(j: Json, q: Path, k: string, v: Json)
    requires !ObjectsAlong(j, q)
    ensures AssignAt(j, q, k, v) == j
    decreases |q|
  {
    if j.Obj? {
      assert q != [];
      var c := Lookup(j.members, q[0]);
      if c.Obj? {
        assert !ObjectsAlong(c, q[1..]);
        AssignAtNoOp(c, q[1..], k, v);
        AssignLookup(j.members, q[0]);
      }
    }
  }

  /** Frame: paths disjoint from the assigned one read as before. */
  lemma {:induction false} AssignAtFrame(j: Json, q: Path, k: string, v: Json, r: Path)
    requires Disjoint(q + [k], r)
    ensures Read(AssignAt(j, q, k, v), r) == Read(j, r)
    decreases |q|
  {
    var p := q + [k];
    assert r != [] by { assert r == [] ==> r <= p; }
    if j.Obj? {
      var m := j.members;
      if q == [] {
        assert AssignAt(j, q, k, v) == Obj(Assign(m, k, v));
        ReadCons(Assign(m, k, v), r);
        ReadCons(m, r);
        LookupAssign(m, k, v, r[0]);
        assert r[0] != k by { assert p == [k]; assert r[0] == k ==> p <= r; }
      } else {
        var c := Lookup(m, q[0]);
        if c.Obj? {
          ReadAssignAtCons(j, q, k, v, r);
          if r[0] == q[0] {
            assert p[1..] == q[1..] + [k];
            DisjointTail(p, r);
            AssignAtFrame(c, q[1..], k, v, r[1..]);
          }
        }
      }
    }
  }

  /** One step down the assigned path, for `AssignAtFrame`. */
  lemma ReadAssignAtCons(j: Json, q: Path, k: string, v: Json, r: Path)
    requires j.Obj? && q != [] && Lookup(j.members, q[0]).Obj? && r != []
    ensures var c := Lookup(j.members, q[0]);
      Read(AssignAt(j, q, k, v), r) ==
        if r[0] == q[0] then Read(AssignAt(c, q[1..], k, v), r[1..]) else Read(j, r)
  {
    var m := j.members;
    var c' := AssignAt(Lookup(m, q[0]), q[1..], k, v);
    assert AssignAt(j, q, k, v) == Obj(Assign(m, q[0], c'));
    ReadCons(Assign(m, q[0], c'), r);
    ReadCons(m, r);
    LookupAssign(m, q[0], c', r[0]);
  }

  /** The keys of the object at path `r`, or none when `r` holds no object. */
  function KeysAt(j: Json, r: Path): seq<string> {
    var n := Read(j, r);
    if n.Obj? then Keys(n.members) else []
  }

  /** Nothing moves along the assigned path: each object on it keeps its key order,
      and gains the next segment at the end only when that key was absent. */
  lemma {:induction false} AssignAtKeys(j: Json, q: Path, k: string, v: Json, i: nat)
    requires ObjectsAlong(j, q) && i <= |q|
    ensures var next := (q + [k])[i];
      KeysAt(AssignAt(j, q, k, v), q[..i]) ==
        if next in KeysAt(j, q[..i]) then KeysAt(j, q[..i]) else KeysAt(j, q[..i]) + [next]
    decreases |q|
  {
    var m := j.members;
    if q == [] {
      AssignKeys(m, k, v);
    } else if i == 0 {
      var c := Lookup(m, q[0]);
      AssignKeys(m, q[0], AssignAt(c, q[1..], k, v));
    } else {
      KeysAtCons(j, q, k, v, i);
      AssignAtKeys(Lookup(m, q[0]), q[1..], k, v, i - 1);
      assert (q + [k])[i] == (q[1..] + [k])[i - 1];
    }
  }

  /** One step down the assigned path, for `AssignAtKeys`. */
  lemma KeysAtCons(j: Json, q: Path, k: string, v: Json, i: nat)
    requires ObjectsAlong(j, q) && 0 < i <= |q|
    ensures var c := Lookup(j.members, q[0]);
      KeysAt(AssignAt(j, q, k, v), q[..i]) == KeysAt(AssignAt(c, q[1..], k, v), q[1..][..i - 1]) &&
      KeysAt(j, q[..i]) == KeysAt(c, q[1..][..i - 1])
  {
    var m := j.members;
    var c := Lookup(m, q[0]);
    var c' := AssignAt(c, q[1..], k, v);
    var m' := Assign(m, q[0], c');
    assert AssignAt(j, q, k, v) == Obj(m');
    LookupAssign(m, q[0], c', q[0]);
    var r := q[..i];
    assert r[0] == q[0] && r[1..] == q[1..][..i - 1];
    ReadCons(m', r);
    ReadCons(m, r);
  }

  lemma {:induction false} AssignAtWellFormed(j: Json, q: Path, k: string, v: Json)
    requires WellFormed(j) && WellFormed(v)
    ensures WellFormed(AssignAt(j, q, k, v))
    decreases |q|
  {
    if j.Obj? {
      var m := j.members;
      if q == [] {
        AssignWellFormed(m, k, v);
      } else {
        var c := Lookup(m, q[0]);
        if c.Obj? {
          LookupWellFormed(m, q[0]);
          AssignAtWellFormed(c, q[1..], k, v);
          AssignWellFormed(m, q[0], AssignAt(c, q[1..], k, v));
        }
      }
    }
  }

  lemma {:induction false} AssignAtClean(j: Json, q: Path, k: string, v: Json)
    requires Clean(j) && Clean(v)
    ensures Clean(AssignAt(j, q, k, v))
    decreases |q|
  {
    if j.Obj? {
      var m := j.members;
      if q == [] {
        AssignClean(m, k, v);
      } else {
        var c := Lookup(m, q[0]);
        if c.Obj? {
          LookupClean(m, q[0]);
          AssignAtClean(c, q[1..], k, v);
          AssignClean(m, q[0], AssignAt(c, q[1..], k, v));
        }
      }
    }
  }

  /** An assignment leaves every object path intact unless the path runs
      through the assigned key. */
  lemma {:induction false} AssignAtKeepsObjects(j: Json, q: Path, k: string, v: Json, r: Path)
    requires ObjectsAlong(j, r) && !(q + [k] <= r)
    ensures ObjectsAlong(AssignAt(j, q, k, v), r)
    decreases |r|
  {
    var m := j.members;
    if r != [] {
      var a := r[0];
      if q == [] {
        assert a != k by { assert a == k ==> q + [k] <= r; }
        LookupAssign(m, k, v, a);
      } else {
        var c0 := Lookup(m, q[0]);
        if c0.Obj? {
          var c0' := AssignAt(c0, q[1..], k, v);
          LookupAssign(m, q[0], c0', a);
          if a == q[0] {
            var p := q + [k];
            assert p[0] == q[0] && p[1..] == q[1..] + [k];
            PrefixTail(p, r);
            AssignAtKeepsObjects(c0, q[1..], k, v, r[1..]);
          }
        }
      }
    }
  }

  // ---------------------------------------------------------------------------
  // The walks before the assignment.

  datatype Walk = Reached(target: Json) | Stopped | Threw(message: string)

  /** V8's message for reading a property of `null` or `undefined`. */
  function ReadError(base: Json, k: string): string {
    "Cannot read properties of " + (if base == Null then "null" else "undefined")
      + " (reading '" + k + "')"
  }

  /** The walk of the privileged patch and of the inline patch: stop as soon as a
      segment is `undefined`; reading a property of `null` throws. */
  function DefinedWalk(obj: Json, segs: Path): (r: Walk)
    ensures r.Reached? && segs != [] ==> r.target != Undef
    decreases |segs|
  {
    if segs == [] then Reached(obj)
    else match obj
      case Undef => Threw(ReadError(obj, segs[0]))
      case Null => Threw(ReadError(obj, segs[0]))
      case Obj(m) =>
        var c := Lookup(m, segs[0]);
        if c == Undef then Stopped else DefinedWalk(c, segs[1..])
      case _ => Stopped   // a primitive has no such property
  }

  /** The walk of the shared `patchValue`: stop unless each segment is a non-null object. */
  function ObjectWalk(obj: Json, segs: Path): (r: Walk)
    ensures r.Reached? && segs != [] ==> r.target.Obj?
    decreases |segs|
  {
    if segs == [] then Reached(obj)
    else match obj
      case Undef => Threw(ReadError(obj, segs[0]))
      case Null => Threw(ReadError(obj, segs[0]))
      case Obj(m) =>
        var c := Lookup(m, segs[0]);
        if c.Obj? then ObjectWalk(c, segs[1..]) else Stopped
      case _ => Stopped
  }

  /** Step `i` of a walk along `q` finds a defined value behind a non-null one. */
  predicate StepDefined(j: Json, q: Path, i: nat)
    requires i < |q|
  {
    Read(j, q[..i]) != Null && Read(j, q[..i + 1]) != Undef
  }

  lemma StepDefinedCons(j: Json, q: Path, i: nat)
    requires j.Obj? && 0 < i < |q|
    ensures StepDefined(j, q, i) == StepDefined(Lookup(j.members, q[0]), q[1..], i - 1)
  {
    var r, r' := q[..i], q[..i + 1];
    assert r[0] == q[0] && r[1..] == q[1..][..i - 1];
    assert r'[0] == q[0] && r'[1..] == q[1..][..i];
    ReadCons(j.members, r);
    ReadCons(j.members, r');
  }

  /** The privileged walk reaches the end exactly when no segment is `undefined`
      and no intermediate is `null`; it then holds the value read along the path. */
  lemma {:induction false} DefinedWalkReached(j: Json, q: Path)
    requires j != Undef
    ensures DefinedWalk(j, q).Reached? <==> forall i :: 0 <= i < |q| ==> StepDefined(j, q, i)
    ensures DefinedWalk(j, q).Reached? ==> DefinedWalk(j, q).target == Read(j, q)
    decreases |q|
  {
    if q != [] {
      var first := q[..1];
      assert q[..0] == [] && first == [q[0]] && first[1..] == [];
      if j.Obj? {
        var c := Lookup(j.members, q[0]);
        ReadCons(j.members, first);
        ReadCons(j.members, q);
        assert Read(j, first) == c;
        if c != Undef {
          DefinedWalkReached(c, q[1..]);
          assert DefinedWalk(j, q) == DefinedWalk(c, q[1..]);
          forall i | 0 < i < |q| ensures StepDefined(j, q, i) == StepDefined(c, q[1..], i - 1) {
            StepDefinedCons(j, q, i);
          }
          assert StepDefined(j, q, 0);
          if !DefinedWalk(j, q).Reached? {
            var i :| 0 <= i < |q[1..]| && !StepDefined(c, q[1..], i);
            assert !StepDefined(j, q, i + 1);
          }
        } else {
          assert !StepDefined(j, q, 0);
        }
      } else {
        assert Read(j, first) == Undef;
        assert !StepDefined(j, q, 0);
      }
    }
  }

  /** The only error the privileged walk throws is the TypeError for reading a
      property of `null` or `undefined`. */
  lemma {:induction false} WalkThrowsRead(j: Json, q: Path)
    ensures DefinedWalk(j, q).Threw? ==> exists b, k :: DefinedWalk(j, q).message == ReadError(b, k)
    decreases |q|
  {
    if q != [] {
      if j.Obj? {
        WalkThrowsRead(Lookup(j.members, q[0]), q[1..]);
      } else if j == Null || j == Undef {
        assert DefinedWalk(j, q).message == ReadError(j, q[0]);
      }
    }
  }

  /** At the first step that fails, the privileged walk throws when that step's
      base is `null` and stops ("Invalid path") otherwise. */
  lemma {:induction false} DefinedWalkFails(j: Json, q: Path, i: nat)
    requires j != Undef && i < |q|
    requires forall k :: 0 <= k < i ==> StepDefined(j, q, k)
    requires !StepDefined(j, q, i)
    ensures DefinedWalk(j, q) ==
      if Read(j, q[..i]) == Null then Threw(ReadError(Null, q[i])) else Stopped
    decreases i
  {
    var first := q[..1];
    assert q[..0] == [] && first == [q[0]] && first[1..] == [];
    if i == 0 {
      if j.Obj? {
        ReadCons(j.members, first);
      }
    } else {
      assert StepDefined(j, q, 0);
      assert j.Obj?;
      var c := Lookup(j.members, q[0]);
      ReadCons(j.members, first);
      assert c != Undef;
      forall k | 0 <= k < i - 1 ensures StepDefined(c, q[1..], k) {
        StepDefinedCons(j, q, k + 1);
      }
      StepDefinedCons(j, q, i);
      assert q[..i][1..] == q[1..][..i - 1];
      ReadCons(j.members, q[..i]);
      DefinedWalkFails(c, q[1..], i - 1);
    }
  }

  /** The two walks agree, and reach the path's value, wherever the path runs
      through objects. */
  lemma {:induction false} WalksAlongObjects(j: Json, q: Path)
    requires ObjectsAlong(j, q)
    ensures Read(j, q).Obj?
    ensures DefinedWalk(j, q) == Reached(Read(j, q))
    ensures ObjectWalk(j, q) == Reached(Read(j, q))
    decreases |q|
  {
    if q != [] {
      WalksAlongObjects(Lookup(j.members, q[0]), q[1..]);
    }
  }

  /** The object walk reaches its end only along objects (and ends at an object). */
  lemma {:induction false} ObjectWalkReached(j: Json, q: Path)
    requires ObjectWalk(j, q).Reached? && ObjectWalk(j, q).target.Obj?
    ensures ObjectsAlong(j, q) && ObjectWalk(j, q).target == Read(j, q)
    decreases |q|
  {
    if q != [] {
      ObjectWalkReached(Lookup(j.members, q[0]), q[1..]);
    }
  }

  /** Likewise for the privileged walk when it ends at an object. */
  lemma {:induction false} DefinedWalkReachedObject(j: Json, q: Path)
    requires DefinedWalk(j, q).Reached? && DefinedWalk(j, q).target.Obj?
    ensures ObjectsAlong(j, q) && DefinedWalk(j, q).target == Read(j, q)
    decreases |q|
  {
    if q != [] {
      DefinedWalkReachedObject(Lookup(j.members, q[0]), q[1..]);
    }
  }
}
