/** JSON values as the CLI sees them after `JSON.parse`. An object is a
    sequence of members in insertion order: assigning to an existing
    property keeps its place, assigning to a new one appends it. (JavaScript
    lists integer-like keys first, in ascending numeric order; the model
    does not, and numbers are integers.) */
module Json {
  import opened Common

  datatype Json =
    | JNull
    | JBool(b: bool)
    | JNum(n: int)
    | JStr(s: string)
    | JArr(items: seq<Json>)
    | JObj(members: seq<(string, Json)>)

  type Members = seq<(string, Json)>

  /** JavaScript truthiness. */
  predicate Truthful(j: Json) {
    match j
    case JNull => false
    case JBool(b) => b
    case JNum(n) => n != 0
    case JStr(s) => s != ""
    case JArr(_) => true
    case JObj(_) => true
  }

  /** A property that is present and holds a non-empty string: the case in
      which `obj.prop || fallback` gives the property. */
  predicate NonEmptyText(v: Option<Json>) {
    v.Some? && v.value.JStr? && v.value.s != ""
  }

  function Keys(m: Members): (ks: seq<string>)
    ensures |ks| == |m|
    ensures forall i :: 0 <= i < |m| ==> ks[i] == m[i].0
  {
    if m == [] then [] else [m[0].0] + Keys(m[1..])
  }

  /** `k in obj` */
  predicate HasKey(m: Members, k: string) {
    k in Keys(m)
  }

  /** No property name occurs twice (true of every object `JSON.parse` builds). */
  predicate UniqueKeys(m: Members) {
    forall i, j :: 0 <= i < j < |m| ==> m[i].0 != m[j].0
  }

  lemma UniqueTail(m: Members)
    requires UniqueKeys(m) && m != []
    ensures UniqueKeys(m[1..])
    ensures !HasKey(m[1..], m[0].0)
  {
    var tail := m[1..];
    forall i | 0 <= i < |tail| ensures Keys(tail)[i] != m[0].0 {
      assert tail[i] == m[i + 1];
    }
  }

  /** `obj[k]`, or None when `k in obj` is false. */
  function Lookup(m: Members, k: string): (r: Option<Json>)
    ensures r.Some? <==> HasKey(m, k)
    ensures r.Some? ==> (k, r.value) in m
  {
    if m == [] then None
    else if m[0].0 == k then Some(m[0].1)
    else Lookup(m[1..], k)
  }

  /** `obj[k] = v`: replaces the value in place when `k` is present, and
      otherwise appends a new member. */
  function Assign(m: Members, k: string, v: Json): (r: Members)
    ensures Lookup(r, k) == Some(v)
    ensures forall k' :: k' != k ==> Lookup(r, k') == Lookup(m, k')
  {
    if m == [] then [(k, v)]
    else if m[0].0 == k then
      var r := [(k, v)] + m[1..];
      assert r[1..] == m[1..];
      r
    else
      var rest := Assign(m[1..], k, v);
      var r := [m[0]] + rest;
      assert r[1..] == rest;
      assert m == [m[0]] + m[1..];
      r
  }

  /** Assigning keeps the order of the existing properties and appends a new one at the end. */
  lemma {:induction false} AssignKeys(m: Members, k: string, v: Json)
    ensures Keys(Assign(m, k, v)) == if HasKey(m, k) then Keys(m) else Keys(m) + [k]
    ensures !HasKey(m, k) ==> Assign(m, k, v) == m + [(k, v)]
  {
    if m != [] && m[0].0 != k {
      var rest := Assign(m[1..], k, v);
      AssignKeys(m[1..], k, v);
      assert m == [m[0]] + m[1..];
      KeysCons(m[0], m[1..]);
      KeysCons(m[0], rest);
      if !HasKey(m, k) {
        ConsAppend(m[0].0, Keys(m[1..]), [k]);
        ConsAppend(m[0], m[1..], [(k, v)]);
      }
    } else if m != [] {
      assert Assign(m, k, v)[1..] == m[1..];
    }
  }

  lemma KeysCons(x: (string, Json), m: Members)
    ensures Keys([x] + m) == [x.0] + Keys(m)
  {
    assert ([x] + m)[1..] == m;
  }

  lemma ConsAppend<T>(x: T, a: seq<T>, b: seq<T>)
    ensures [x] + (a + b) == ([x] + a) + b
  {
  }

  lemma AssignKeepsUnique(m: Members, k: string, v: Json)
    requires UniqueKeys(m)
    ensures UniqueKeys(Assign(m, k, v))
  {
    var r := Assign(m, k, v);
    AssignKeys(m, k, v);
    if HasKey(m, k) {
      SameKeysKeepUnique(m, r);
    } else {
      forall i, j | 0 <= i < j < |r| ensures r[i].0 != r[j].0 {
        assert r[i] == m[i];
        if j < |m| {
          assert r[j] == m[j];
        } else {
          assert Keys(m)[i] == m[i].0;
        }
      }
    }
  }

  lemma SameKeysKeepUnique(m: Members, r: Members)
    requires UniqueKeys(m) && Keys(r) == Keys(m)
    ensures UniqueKeys(r)
  {
    forall i, j | 0 <= i < j < |r| ensures r[i].0 != r[j].0 {
      assert Keys(r)[i] == Keys(m)[i] && Keys(r)[j] == Keys(m)[j];
    }
  }

  /** Looking a name up in an object, seen from its last member: a name the
      earlier members have is found there, and otherwise only the last
      member can supply it. */
  lemma LookupLast(m: Members, k: string)
    requires m != []
    ensures var init := m[..|m| - 1];
      Lookup(m, k) == if HasKey(init, k) then Lookup(init, k) else if k == m[|m| - 1].0 then Some(m[|m| - 1].1) else None
  {
    var init := m[..|m| - 1];
    assert m == init + [m[|m| - 1]];
    LookupAppend(init, [m[|m| - 1]], k);
  }

  /** Looking a name up in two objects joined: the first one's member wins. */
  lemma {:induction false} LookupAppend(a: Members, b: Members, k: string)
    ensures Lookup(a + b, k) == if HasKey(a, k) then Lookup(a, k) else Lookup(b, k)
    decreases |a|
  {
    if a == [] {
      assert a + b == b;
    } else if a[0].0 == k {
      assert (a + b)[0] == a[0];
      assert Keys(a)[0] == k;
    } else {
      assert (a + b)[1..] == a[1..] + b;
      LookupAppend(a[1..], b, k);
    }
  }

  /** The object spread `{...base, ...over}`: the members of `over` are
      assigned, in order, onto a copy of `base`. */
  function Overlay(base: Members, over: Members): Members
    decreases |over|
  {
    if over == [] then base else Overlay(Assign(base, over[0].0, over[0].1), over[1..])
  }

  /** A property of a spread comes from the second object when it has it,
      and from the first otherwise. */
  lemma {:induction false} OverlayLookup(base: Members, over: Members, k: string)
    requires UniqueKeys(over)
    ensures Lookup(Overlay(base, over), k) == if HasKey(over, k) then Lookup(over, k) else Lookup(base, k)
    decreases |over|
  {
    if over != [] {
      UniqueTail(over);
      OverlayLookup(Assign(base, over[0].0, over[0].1), over[1..], k);
    }
  }
}
