/** JavaScript values as the configuration editor sees them: the JSON data that
    comment-json parses from the configuration file, plus `undefined`, which a live
    object can hold after an assignment but which JSON serialisation drops.
    Objects keep their keys in insertion order, as JavaScript objects do for
    non-numeric keys. */
module Json {

  datatype Json =
    | Undef                       // JavaScript `undefined`
    | Null
    | Bool(b: bool)
    | Num(n: int)                 // numbers are modelled as integers
    | Str(s: string)
    | Obj(members: seq<Member>)   // an object: its properties in key order

  datatype Member = Member(key: string, value: Json)

  /** Truthiness, as used by `!config`, `!prev` and `o && ...`. */
  predicate Truthy(j: Json) {
    match j
    case Undef => false
    case Null => false
    case Bool(b) => b
    case Num(n) => n != 0
    case Str(s) => s != ""
    case Obj(_) => true
  }

  /** The keys of an object, in order. */
  function Keys(m: seq<Member>): (ks: seq<string>)
    ensures |ks| == |m|
  {
    if m == [] then [] else [m[0].key] + Keys(m[1..])
  }

  lemma {:induction false} KeysAppend(a: seq<Member>, b: seq<Member>)
    ensures Keys(a + b) == Keys(a) + Keys(b)
  {
    if a != [] {
      KeysAppend(a[1..], b);
      assert (a + b)[1..] == a[1..] + b;
      assert Keys(a + b) == [a[0].key] + Keys(a[1..] + b);
      assert Keys(a) == [a[0].key] + Keys(a[1..]);
      assert ([a[0].key] + Keys(a[1..])) + Keys(b) == [a[0].key] + (Keys(a[1..]) + Keys(b));
    } else {
      assert a + b == b;
    }
  }

  predicate Distinct(ks: seq<string>) {
    forall i, j :: 0 <= i < j < |ks| ==> ks[i] != ks[j]
  }

  lemma DistinctHead(m: seq<Member>)
    requires m != [] && Distinct(Keys(m))
    ensures m[0].key !in Keys(m[1..]) && Distinct(Keys(m[1..]))
  {
    var ks, ts := Keys(m), Keys(m[1..]);
    assert ks == [m[0].key] + ts;
    forall j | 0 <= j < |ts| ensures ts[j] != m[0].key {
      assert ks[0] == m[0].key && ks[j + 1] == ts[j];
    }
    forall i, j | 0 <= i < j < |ts| ensures ts[i] != ts[j] {
      assert ks[i + 1] == ts[i] && ks[j + 1] == ts[j];
    }
  }

  /** Property read `o[k]` on an object: `undefined` when the key is absent. */
  function Lookup(m: seq<Member>, k: string): (v: Json)
    ensures k !in Keys(m) ==> v == Undef
  {
    if m == [] then Undef
    else if m[0].key == k then m[0].value
    else Lookup(m[1..], k)
  }

  /** Property assignment `o[k] = v`: an existing key keeps its position,
      a new key is appended. */
  function Assign(m: seq<Member>, k: string, v: Json): (r: seq<Member>)
    ensures |m| <= |r| <= |m| + 1
  {
    if m == [] then [Member(k, v)]
    else if m[0].key == k then [Member(k, v)] + m[1..]
    else [m[0]] + Assign(m[1..], k, v)
  }

  /** Assignment leaves the key order alone, appending the key only when it is new. */
  lemma {:induction false} AssignKeys(m: seq<Member>, k: string, v: Json)
    ensures Keys(Assign(m, k, v)) == if k in Keys(m) then Keys(m) else Keys(m) + [k]
  {
    if m != [] {
      assert Keys(m) == [m[0].key] + Keys(m[1..]);
      if m[0].key != k {
        AssignKeys(m[1..], k, v);
        assert Assign(m, k, v) == [m[0]] + Assign(m[1..], k, v);
        assert Keys(Assign(m, k, v)) == [m[0].key] + Keys(Assign(m[1..], k, v));
      } else {
        assert Keys(Assign(m, k, v)) == [k] + Keys(m[1..]);
      }
    }
  }

  lemma {:induction false} LookupAssign(m: seq<Member>, k: string, v: Json, k': string)
    ensures Lookup(Assign(m, k, v), k') == if k' == k then v else Lookup(m, k')
  {
    if m != [] && m[0].key != k {
      LookupAssign(m[1..], k, v, k');
    }
  }

  /** Writing back the value a present key already holds changes nothing. */
  lemma {:induction false} AssignLookup(m: seq<Member>, k: string)
    requires k in Keys(m)
    ensures Assign(m, k, Lookup(m, k)) == m
  {
    if m[0].key != k {
      assert Keys(m[1..]) == Keys(m)[1..];
      AssignLookup(m[1..], k);
    }
  }

  /** Every object in the value has distinct keys, as every JavaScript object does. */
  predicate WellFormed(j: Json) {
    match j
    case Obj(m) => Distinct(Keys(m)) && forall i :: 0 <= i < |m| ==> WellFormed(m[i].value)
    case _ => true
  }

  lemma {:induction false} LookupWellFormed(m: seq<Member>, k: string)
    requires forall i :: 0 <= i < |m| ==> WellFormed(m[i].value)
    ensures WellFormed(Lookup(m, k))
  {
    if m != [] && m[0].key != k {
      LookupWellFormed(m[1..], k);
    }
  }

  lemma {:induction false} AssignWellFormed(m: seq<Member>, k: string, v: Json)
    requires WellFormed(Obj(m)) && WellFormed(v)
    ensures WellFormed(Obj(Assign(m, k, v)))
  {
    if m != [] && m[0].key != k {
      DistinctHead(m);
      AssignWellFormed(m[1..], k, v);
    }
    var r := Assign(m, k, v);
    AssignKeys(m, k, v);
    if k in Keys(m) {
      assert Keys(r) == Keys(m);
    }
    AssignValues(m, k, v);
  }

  lemma {:induction false} AssignValues(m: seq<Member>, k: string, v: Json)
    ensures forall i :: 0 <= i < |Assign(m, k, v)| ==>
      Assign(m, k, v)[i].value == v || Assign(m, k, v)[i] in m
  {
    if m != [] && m[0].key != k {
      AssignValues(m[1..], k, v);
    }
  }

  /** Data that JSON carries: no `undefined` anywhere. */
  predicate Clean(j: Json) {
    match j
    case Undef => false
    case Obj(m) => forall i :: 0 <= i < |m| ==> Clean(m[i].value)
    case _ => true
  }

  lemma {:induction false} LookupClean(m: seq<Member>, k: string)
    requires Clean(Obj(m))
    ensures Lookup(m, k) == Undef || Clean(Lookup(m, k))
  {
    if m != [] && m[0].key != k {
      LookupClean(m[1..], k);
    }
  }

  lemma AssignClean(m: seq<Member>, k: string, v: Json)
    requires Clean(Obj(m)) && Clean(v)
    ensures Clean(Obj(Assign(m, k, v)))
  {
    AssignValues(m, k, v);
  }

  /** What `JSON.parse(JSON.stringify(j))` gives back for a defined value: the same
      tree with every `undefined`-valued property dropped. */
  function Clone(j: Json): (r: Json)
    ensures r.Obj? <==> j.Obj?
    ensures r == Undef <==> j == Undef
  {
    match j
    case Obj(m) => Obj(CloneMembers(m))
    case _ => j
  }

  function CloneMembers(m: seq<Member>): (r: seq<Member>)
    ensures |r| <= |m|
  {
    if m == [] then []
    else (if m[0].value == Undef then [] else [Member(m[0].key, Clone(m[0].value))])
         + CloneMembers(m[1..])
  }

  lemma {:induction false} CloneMembersKeys(m: seq<Member>)
    ensures forall k :: k in Keys(CloneMembers(m)) ==> k in Keys(m)
  {
    if m != [] {
      CloneMembersKeys(m[1..]);
      var head := if m[0].value == Undef then [] else [Member(m[0].key, Clone(m[0].value))];
      assert CloneMembers(m) == head + CloneMembers(m[1..]);
      KeysAppend(head, CloneMembers(m[1..]));
    }
  }

  /** Cloning an object commutes with reading one of its properties. */
  lemma {:induction false} LookupClone(m: seq<Member>, k: string)
    requires Distinct(Keys(m))
    ensures Lookup(CloneMembers(m), k) == Clone(Lookup(m, k))
  {
    if m != [] {
      var rest := CloneMembers(m[1..]);
      assert Keys(m[1..]) == Keys(m)[1..];
      if m[0].value == Undef {
        assert CloneMembers(m) == rest;
        if m[0].key == k {
          DistinctHead(m);
          CloneMembersKeys(m[1..]);
        } else {
          LookupClone(m[1..], k);
        }
      } else {
        var r := [Member(m[0].key, Clone(m[0].value))] + rest;
        assert CloneMembers(m) == r;
        assert r[1..] == rest;
        if m[0].key != k {
          LookupClone(m[1..], k);
        }
      }
    }
  }

  lemma {:induction false} CloneWellFormed(j: Json)
    requires WellFormed(j)
    ensures WellFormed(Clone(j))
  {
    if j.Obj? {
      CloneMembersWellFormed(j.members);
    }
  }

  lemma {:induction false} CloneMembersWellFormed(m: seq<Member>)
    requires WellFormed(Obj(m))
    ensures WellFormed(Obj(CloneMembers(m)))
  {
    if m != [] {
      assert Keys(m[1..]) == Keys(m)[1..];
      assert WellFormed(m[0].value);
      CloneMembersWellFormed(m[1..]);
      CloneWellFormed(m[0].value);
      CloneMembersKeys(m[1..]);
      var head := if m[0].value == Undef then [] else [Member(m[0].key, Clone(m[0].value))];
      var r := CloneMembers(m);
      assert r == head + CloneMembers(m[1..]);
      KeysAppend(head, CloneMembers(m[1..]));
      DistinctHead(m);
    }
  }

  /** The clone of a defined value is JSON data. */
  lemma {:induction false} CloneClean(j: Json)
    requires j != Undef
    ensures Clean(Clone(j))
  {
    if j.Obj? {
      CloneMembersClean(j.members);
    }
  }

  lemma {:induction false} CloneMembersClean(m: seq<Member>)
    ensures forall i :: 0 <= i < |CloneMembers(m)| ==> Clean(CloneMembers(m)[i].value)
  {
    if m != [] {
      CloneMembersClean(m[1..]);
      if m[0].value != Undef {
        CloneClean(m[0].value);
      }
      var head := if m[0].value == Undef then [] else [Member(m[0].key, Clone(m[0].value))];
      assert CloneMembers(m) == head + CloneMembers(m[1..]);
    }
  }

  /** Cloning JSON data gives back the same value. */
  lemma {:induction false} CloneOfClean(j: Json)
    requires Clean(j)
    ensures Clone(j) == j
  {
    if j.Obj? {
      CloneMembersOfClean(j.members);
    }
  }

  lemma {:induction false} CloneMembersOfClean(m: seq<Member>)
    requires forall i :: 0 <= i < |m| ==> Clean(m[i].value)
    ensures CloneMembers(m) == m
  {
    if m != [] {
      CloneOfClean(m[0].value);
      CloneMembersOfClean(m[1..]);
      assert m == [m[0]] + m[1..];
    }
  }
}
