/** JSON values as `serde_json` holds them, with structural addresses that owe nothing to text. */
module Json {
  import opened Common

  datatype Member = Member(key: string, value: Json)

  datatype Json =
    | Null
    | Bool(b: bool)
    | Number(literal: string)
    | Str(text: string)
    | Arr(items: seq<Json>)
    | Obj(members: seq<Member>)

  /** The value under a key of an object. */
  function Get(members: seq<Member>, key: string): (v: Option<Json>)
    ensures v.Some? <==> exists i | 0 <= i < |members| :: members[i].key == key
    ensures v.Some? ==> exists i | 0 <= i < |members| :: members[i] == Member(key, v.value)
  {
    if members == [] then None
    else if members[0].key == key then Some(members[0].value)
    else
      assert forall i | 0 <= i < |members[1..]| :: members[1..][i] == members[i + 1];
      assert forall i | 1 <= i < |members| :: members[i] == members[1..][i - 1];
      Get(members[1..], key)
  }

  function Children(v: Json): (c: seq<Json>)
    ensures forall i | 0 <= i < |c| :: c[i] < v
  {
    match v
    case Arr(items) => items
    case Obj(members) => seq(|members|, i requires 0 <= i < |members| => members[i].value)
    case _ => []
  }

  function WithChild(v: Json, i: nat, c: Json): (r: Json)
    requires i < |Children(v)|
    ensures Children(r) == Children(v)[i := c]
  {
    match v
    case Arr(items) => Arr(items[i := c])
    case Obj(members) => Obj(members[i := Member(members[i].key, c)])
  }

  /** An object holds each key once, at every level. */
  ghost predicate DistinctKeys(v: Json) {
    && (v.Obj? ==> forall i, j | 0 <= i < j < |v.members| :: v.members[i].key != v.members[j].key)
    && forall i | 0 <= i < |Children(v)| :: DistinctKeys(Children(v)[i])
  }

  /** Same keys in the same order, same array lengths, same values except for the text of strings. */
  ghost predicate SameShape(a: Json, b: Json) {
    match (a, b)
    case (Str(_), Str(_)) => true
    case (Arr(x), Arr(y)) => |x| == |y| && forall i | 0 <= i < |x| :: SameShape(x[i], y[i])
    case (Obj(x), Obj(y)) =>
      |x| == |y| && forall i | 0 <= i < |x| :: x[i].key == y[i].key && SameShape(x[i].value, y[i].value)
    case _ => a == b
  }

  // ---- structural addresses ----

  type Address = seq<nat>

  /** The node reached by going to the given child at each level. */
  function At(v: Json, addr: Address): Option<Json>
    decreases |addr|
  {
    if addr == [] then Some(v)
    else if addr[0] < |Children(v)| then At(Children(v)[addr[0]], addr[1..])
    else None
  }

  ghost predicate IsStringAt(v: Json, addr: Address) {
    At(v, addr).Some? && At(v, addr).value.Str?
  }

  ghost function TextAt(v: Json, addr: Address): string
    requires IsStringAt(v, addr)
  {
    At(v, addr).value.text
  }

  function Prefixed(i: nat, addrs: seq<Address>): (r: seq<Address>)
    ensures |r| == |addrs| && forall k | 0 <= k < |r| :: r[k] == [i] + addrs[k]
  {
    seq(|addrs|, k requires 0 <= k < |addrs| => [i] + addrs[k])
  }

  /** The addresses of all strings, in document order. */
  function StringAddresses(v: Json): seq<Address>
    decreases v, |Children(v)| + 1
  {
    if v.Str? then [[]] else StringAddressesOf(v, |Children(v)|)
  }

  /** Those below the first `n` children. */
  function StringAddressesOf(v: Json, n: nat): seq<Address>
    requires n <= |Children(v)|
    decreases v, n
  {
    if n == 0 then []
    else StringAddressesOf(v, n - 1) + Prefixed(n - 1, StringAddresses(Children(v)[n - 1]))
  }

  lemma {:induction false} AddressesAreStrings(v: Json, k: nat)
    requires k < |StringAddresses(v)|
    ensures IsStringAt(v, StringAddresses(v)[k])
    decreases v, |Children(v)| + 1
  {
    if !v.Str? {
      AddressesOfAreStrings(v, |Children(v)|, k);
    }
  }

  lemma {:induction false} AddressesOfAreStrings(v: Json, n: nat, k: nat)
    requires n <= |Children(v)| && k < |StringAddressesOf(v, n)|
    ensures
      var addr := StringAddressesOf(v, n)[k];
      addr != [] && addr[0] < n && IsStringAt(v, addr)
    decreases v, n
  {
    var before := StringAddressesOf(v, n - 1);
    if k < |before| {
      AddressesOfAreStrings(v, n - 1, k);
    } else {
      var child := Children(v)[n - 1];
      AddressesAreStrings(child, k - |before|);
      var addr := StringAddressesOf(v, n)[k];
      assert addr == [n - 1] + StringAddresses(child)[k - |before|];
      assert addr[1..] == StringAddresses(child)[k - |before|];
    }
  }

  lemma {:induction false} EveryStringIsAddressed(v: Json, addr: Address)
    requires IsStringAt(v, addr)
    ensures addr in StringAddresses(v)
    decreases |addr|
  {
    if addr != [] {
      EveryStringIsAddressed(Children(v)[addr[0]], addr[1..]);
      AddressedBelow(v, |Children(v)|, addr);
    }
  }

  lemma {:induction false} AddressedBelow(v: Json, n: nat, addr: Address)
    requires n <= |Children(v)| && addr != [] && addr[0] < n && addr[1..] in StringAddresses(Children(v)[addr[0]])
    ensures addr in StringAddressesOf(v, n)
    decreases n
  {
    if addr[0] == n - 1 {
      var below := StringAddresses(Children(v)[n - 1]);
      var k :| 0 <= k < |below| && below[k] == addr[1..];
      assert Prefixed(n - 1, below)[k] == [n - 1] + below[k] == addr;
    } else {
      AddressedBelow(v, n - 1, addr);
    }
  }

  lemma {:induction false} AddressesDistinct(v: Json)
    ensures Distinct(StringAddresses(v))
    decreases v, |Children(v)| + 1
  {
    if !v.Str? {
      AddressesOfDistinct(v, |Children(v)|);
    }
  }

  lemma {:induction false} AddressesOfDistinct(v: Json, n: nat)
    requires n <= |Children(v)|
    ensures Distinct(StringAddressesOf(v, n))
    decreases v, n
  {
    if n > 0 {
      AddressesOfDistinct(v, n - 1);
      var below := StringAddresses(Children(v)[n - 1]);
      AddressesDistinct(Children(v)[n - 1]);
      var before, added := StringAddressesOf(v, n - 1), Prefixed(n - 1, below);
      forall j, k | 0 <= j < k < |added|
        ensures added[j] != added[k]
      {
        assert added[j][1..] == below[j] && added[k][1..] == below[k];
      }
      forall j, k | 0 <= j < |before| && 0 <= k < |added|
        ensures before[j] != added[k]
      {
        AddressesOfAreStrings(v, n - 1, j);
      }
    }
  }

  // ---- replacing one string ----

  /** `a` comes before `b` in the document: they part at some level, where `a` takes the earlier child. */
  ghost predicate Before(a: Address, b: Address)
    decreases |a|
  {
    a != [] && b != [] && (a[0] < b[0] || (a[0] == b[0] && Before(a[1..], b[1..])))
  }

  /** The addresses are listed in document order. */
  lemma {:induction false} AddressesInOrder(v: Json)
    ensures forall j, k | 0 <= j < k < |StringAddresses(v)| :: Before(StringAddresses(v)[j], StringAddresses(v)[k])
    decreases v, |Children(v)| + 1
  {
    if !v.Str? {
      AddressesOfInOrder(v, |Children(v)|);
    }
  }

  lemma {:induction false} AddressesOfInOrder(v: Json, n: nat)
    requires n <= |Children(v)|
    ensures forall j, k | 0 <= j < k < |StringAddressesOf(v, n)| ::
              Before(StringAddressesOf(v, n)[j], StringAddressesOf(v, n)[k])
    ensures forall k | 0 <= k < |StringAddressesOf(v, n)| ::
              StringAddressesOf(v, n)[k] != [] && StringAddressesOf(v, n)[k][0] < n
    decreases v, n
  {
    if n > 0 {
      AddressesOfInOrder(v, n - 1);
      AddressesInOrder(Children(v)[n - 1]);
      var before, below := StringAddressesOf(v, n - 1), StringAddresses(Children(v)[n - 1]);
      var all := StringAddressesOf(v, n);
      forall j, k | 0 <= j < k < |all|
        ensures Before(all[j], all[k])
      {
        if j >= |before| {
          assert all[j][1..] == below[j - |before|] && all[k][1..] == below[k - |before|];
        }
      }
    }
  }

  ghost function SetAt(v: Json, addr: Address, c: Json): Json
    requires At(v, addr).Some?
    decreases |addr|
  {
    if addr == [] then c else WithChild(v, addr[0], SetAt(Children(v)[addr[0]], addr[1..], c))
  }

  lemma {:induction false} SameShapeRefl(v: Json)
    ensures SameShape(v, v)
  {
    match v
    case Arr(items) =>
      forall i | 0 <= i < |items| {
        SameShapeRefl(items[i]);
      }
    case Obj(members) =>
      forall i | 0 <= i < |members| {
        SameShapeRefl(members[i].value);
      }
    case _ =>
  }

  lemma SameShapeChildren(a: Json, b: Json, i: nat)
    requires SameShape(a, b) && i < |Children(a)|
    ensures |Children(a)| == |Children(b)| && SameShape(Children(a)[i], Children(b)[i])
  {
  }

  lemma SameShapeWithChild(v: Json, w: Json, i: nat, c: Json)
    requires SameShape(v, w) && i < |Children(v)| == |Children(w)| && SameShape(Children(v)[i], c)
    ensures SameShape(v, WithChild(w, i, c))
  {
  }

  /** Replacing a string by a string keeps the shape. */
  lemma {:induction false} SetKeepsShape(v: Json, w: Json, addr: Address, text: string)
    requires SameShape(v, w) && IsStringAt(w, addr)
    ensures SameShape(v, SetAt(w, addr, Str(text)))
    decreases |addr|
  {
    if addr != [] {
      ShapeCount(v, w);
      SameShapeChildren(v, w, addr[0]);
      SetKeepsShape(Children(v)[addr[0]], Children(w)[addr[0]], addr[1..], text);
      SameShapeWithChild(v, w, addr[0], SetAt(Children(w)[addr[0]], addr[1..], Str(text)));
    }
  }

  lemma ShapeCount(a: Json, b: Json)
    requires SameShape(a, b)
    ensures |Children(a)| == |Children(b)|
  {
  }

  /** Replacing the string at one address changes the string there and no other. */
  lemma {:induction false} SetChangesOneString(v: Json, addr: Address, text: string, other: Address)
    requires IsStringAt(v, addr) && IsStringAt(v, other)
    ensures IsStringAt(SetAt(v, addr, Str(text)), other)
    ensures TextAt(SetAt(v, addr, Str(text)), other) == if other == addr then text else TextAt(v, other)
    decreases |addr|
  {
    if addr != [] && other != [] {
      var i := addr[0];
      var c := SetAt(Children(v)[i], addr[1..], Str(text));
      assert Children(SetAt(v, addr, Str(text))) == Children(v)[i := c];
      assert addr == [i] + addr[1..] && other == [other[0]] + other[1..];
      if other[0] == i {
        SetChangesOneString(Children(v)[i], addr[1..], text, other[1..]);
      }
    }
  }

  /** Values of one shape with the same strings are equal. */
  lemma {:induction false} EqualByStrings(a: Json, b: Json)
    requires SameShape(a, b)
    requires forall addr | IsStringAt(a, addr) :: IsStringAt(b, addr) && TextAt(a, addr) == TextAt(b, addr)
    ensures a == b
    decreases a
  {
    match a
    case Str(_) =>
      assert IsStringAt(a, []);
    case Arr(items) =>
      forall i | 0 <= i < |items|
        ensures items[i] == b.items[i]
      {
        ChildStrings(a, b, i);
        EqualByStrings(items[i], b.items[i]);
      }
      assert items == b.items;
    case Obj(members) =>
      forall i | 0 <= i < |members|
        ensures members[i] == b.members[i]
      {
        ChildStrings(a, b, i);
        assert Children(a)[i] == members[i].value && Children(b)[i] == b.members[i].value;
        EqualByStrings(members[i].value, b.members[i].value);
      }
      assert members == b.members;
    case _ =>
  }

  lemma ChildStrings(a: Json, b: Json, i: nat)
    requires i < |Children(a)| == |Children(b)|
    requires forall addr | IsStringAt(a, addr) :: IsStringAt(b, addr) && TextAt(a, addr) == TextAt(b, addr)
    ensures forall addr | IsStringAt(Children(a)[i], addr) ::
              IsStringAt(Children(b)[i], addr) && TextAt(Children(a)[i], addr) == TextAt(Children(b)[i], addr)
  {
    forall addr | IsStringAt(Children(a)[i], addr)
      ensures IsStringAt(Children(b)[i], addr) && TextAt(Children(a)[i], addr) == TextAt(Children(b)[i], addr)
    {
      var full := [i] + addr;
      assert full[1..] == addr;
      assert IsStringAt(a, full);
    }
  }

  // ---- a map over all strings ----

  /** Keys, array lengths and other values kept; every string replaced. */
  ghost function MapStrings(v: Json, f: string -> string): Json {
    match v
    case Str(text) => Str(f(text))
    case Arr(items) => Arr(seq(|items|, i requires 0 <= i < |items| => MapStrings(items[i], f)))
    case Obj(members) =>
      Obj(seq(|members|, i requires 0 <= i < |members| => Member(members[i].key, MapStrings(members[i].value, f))))
    case _ => v
  }

  lemma {:induction false} MapKeepsShape(v: Json, f: string -> string)
    ensures SameShape(v, MapStrings(v, f))
  {
    match v
    case Arr(items) =>
      forall i | 0 <= i < |items| {
        MapKeepsShape(items[i], f);
      }
    case Obj(members) =>
      forall i | 0 <= i < |members| {
        MapKeepsShape(members[i].value, f);
      }
    case _ =>
  }
}
