/** JSON values and their order (Value, Value::CZString in lib/json/jsoncpp.cpp). */
module JsonValues {
  import opened Bytes

  /** A value. `NullString` is a string value whose pointer is null; arrays are dense. Objects
      list their members in the order of the map that holds them. */
  datatype Value =
    | Null
    | Int(i: int)
    | UInt(u: nat)
    | Real(r: real)
    | NullString
    | Text(s: bytes)
    | Bool(b: bool)
    | Array(elems: seq<Value>)
    | Object(members: seq<Member>)

  datatype Member = Member(key: bytes, value: Value)

  /** The type tag, in the order of the `ValueType` enumeration. */
  function Tag(v: Value): nat {
    match v
    case Null => 0
    case Int(_) => 1
    case UInt(_) => 2
    case Real(_) => 3
    case NullString => 4
    case Text(_) => 4
    case Bool(_) => 5
    case Array(_) => 6
    case Object(_) => 7
  }

  /** `memcmp` over the first `n` bytes, as unsigned characters. */
  function MemCmp(a: bytes, b: bytes, n: nat): int
    requires n <= |a| && n <= |b|
  {
    if n == 0 then 0
    else if a[0] != b[0] then a[0] as int - b[0] as int
    else MemCmp(a[1..], b[1..], n - 1)
  }

  /** CZString::operator< and the order of string values: the common length first, then the length. */
  predicate BytesLess(a: bytes, b: bytes) {
    var comp := MemCmp(a, b, Min(|a|, |b|));
    if comp < 0 then true
    else if comp > 0 then false
    else |a| < |b|
  }

  ghost function Size(v: Value): nat {
    match v
    case Array(elems) => 1 + ElemsSize(elems)
    case Object(members) => 1 + MembersSize(members)
    case _ => 0
  }

  ghost function ElemsSize(elems: seq<Value>): nat {
    if elems == [] then 0 else 1 + Size(elems[0]) + ElemsSize(elems[1..])
  }

  ghost function MembersSize(members: seq<Member>): nat {
    if members == [] then 0 else 1 + Size(members[0].value) + MembersSize(members[1..])
  }

  /** Value::operator<. */
  predicate Less(a: Value, b: Value)
    decreases Size(a) + Size(b), 0
  {
    if Tag(a) != Tag(b) then Tag(a) < Tag(b)
    else
      match a
      case Null => false
      case Int(i) => i < b.i
      case UInt(u) => u < b.u
      case Real(r) => r < b.r
      case NullString => b.Text?
      case Text(s) => b.Text? && BytesLess(s, b.s)
      case Bool(x) => !x && b.b
      case Array(elems) =>
        if |elems| != |b.elems| then |elems| < |b.elems| else ElemsLess(elems, b.elems)
      case Object(members) =>
        if |members| != |b.members| then |members| < |b.members| else MembersLess(members, b.members)
  }

  /** Lexicographical comparison of the elements of two arrays. */
  predicate ElemsLess(a: seq<Value>, b: seq<Value>)
    decreases ElemsSize(a) + ElemsSize(b)
  {
    if b == [] then false
    else if a == [] then true
    else if Less(a[0], b[0]) then true
    else if Less(b[0], a[0]) then false
    else ElemsLess(a[1..], b[1..])
  }

  /** The order of pairs: by key, then by value. */
  predicate MemberLess(m: Member, n: Member)
    decreases Size(m.value) + Size(n.value), 1
  {
    BytesLess(m.key, n.key) || (!BytesLess(n.key, m.key) && Less(m.value, n.value))
  }

  /** Lexicographical comparison of the key-value pairs of two objects. */
  predicate MembersLess(a: seq<Member>, b: seq<Member>)
    decreases MembersSize(a) + MembersSize(b)
  {
    if b == [] then false
    else if a == [] then true
    else if MemberLess(a[0], b[0]) then true
    else if MemberLess(b[0], a[0]) then false
    else MembersLess(a[1..], b[1..])
  }

  /** Value::operator==. */
  predicate Equal(a: Value, b: Value)
    decreases a
  {
    if Tag(a) != Tag(b) then false
    else
      match a
      case Null => true
      case Int(i) => i == b.i
      case UInt(u) => u == b.u
      case Real(r) => r == b.r
      case NullString => b.NullString?
      case Text(s) => b.Text? && |s| == |b.s| && MemCmp(s, b.s, |s|) == 0
      case Bool(x) => x == b.b
      case Array(elems) => |elems| == |b.elems| && forall i | 0 <= i < |elems| :: Equal(elems[i], b.elems[i])
      case Object(members) =>
        |members| == |b.members| &&
        forall i | 0 <= i < |members| ::
          var m, n := members[i], b.members[i];
          |m.key| == |n.key| && MemCmp(m.key, n.key, |m.key|) == 0 && Equal(m.value, n.value)
  }

  // ---------- byte strings ----------

  /** Without the first byte, when the first bytes agree. */
  lemma BytesLessTail(a: bytes, b: bytes)
    requires a != [] && b != []
    ensures BytesLess(a, b) == if a[0] != b[0] then a[0] < b[0] else BytesLess(a[1..], b[1..])
  {
  }

  lemma {:induction false} MemCmpZero(a: bytes, b: bytes, n: nat)
    requires n <= |a| && n <= |b|
    ensures MemCmp(a, b, n) == 0 <==> a[..n] == b[..n]
  {
    if n > 0 {
      MemCmpZero(a[1..], b[1..], n - 1);
      assert a[..n] == [a[0]] + a[1..][..n - 1];
      assert b[..n] == [b[0]] + b[1..][..n - 1];
      if a[..n] == b[..n] {
        assert a[..n][0] == b[..n][0];
        assert a[..n][1..] == b[..n][1..];
      }
    }
  }

  /** Exactly one of less, equal and greater. */
  lemma {:induction false} BytesTrichotomy(a: bytes, b: bytes)
    ensures BytesLess(a, b) ==> a != b && !BytesLess(b, a)
    ensures !BytesLess(a, b) && !BytesLess(b, a) ==> a == b
  {
    if a != [] && b != [] {
      BytesLessTail(a, b);
      BytesLessTail(b, a);
      BytesTrichotomy(a[1..], b[1..]);
      assert a == [a[0]] + a[1..] && b == [b[0]] + b[1..];
    }
  }

  lemma {:induction false} BytesTransitive(a: bytes, b: bytes, c: bytes)
    requires BytesLess(a, b) && BytesLess(b, c)
    ensures BytesLess(a, c)
  {
    if a != [] && b != [] && c != [] {
      BytesLessTail(a, b);
      BytesLessTail(b, c);
      BytesLessTail(a, c);
      if a[0] == b[0] == c[0] {
        BytesTransitive(a[1..], b[1..], c[1..]);
      }
    }
  }

  // ---------- values ----------

  /** Exactly one of less, equal and greater holds of two values. */
  lemma {:induction false} Trichotomy(a: Value, b: Value)
    ensures Less(a, b) ==> a != b && !Less(b, a)
    ensures !Less(a, b) && !Less(b, a) ==> a == b
    decreases Size(a) + Size(b), 0
  {
    if Tag(a) == Tag(b) {
      match a
      case Text(s) =>
        if b.Text? {
          BytesTrichotomy(s, b.s);
        }
      case Array(elems) => ElemsTrichotomy(elems, b.elems);
      case Object(members) => MembersTrichotomy(members, b.members);
      case _ =>
    }
  }

  lemma {:induction false} ElemsTrichotomy(a: seq<Value>, b: seq<Value>)
    ensures ElemsLess(a, b) ==> a != b && !ElemsLess(b, a)
    ensures !ElemsLess(a, b) && !ElemsLess(b, a) ==> a == b
    decreases ElemsSize(a) + ElemsSize(b)
  {
    if a != [] && b != [] {
      Trichotomy(a[0], b[0]);
      ElemsTrichotomy(a[1..], b[1..]);
      assert a == [a[0]] + a[1..] && b == [b[0]] + b[1..];
    }
  }

  lemma {:induction false} MemberTrichotomy(m: Member, n: Member)
    ensures MemberLess(m, n) ==> m != n && !MemberLess(n, m)
    ensures !MemberLess(m, n) && !MemberLess(n, m) ==> m == n
    decreases Size(m.value) + Size(n.value), 1
  {
    BytesTrichotomy(m.key, n.key);
    BytesTrichotomy(n.key, m.key);
    Trichotomy(m.value, n.value);
  }

  lemma {:induction false} MembersTrichotomy(a: seq<Member>, b: seq<Member>)
    ensures MembersLess(a, b) ==> a != b && !MembersLess(b, a)
    ensures !MembersLess(a, b) && !MembersLess(b, a) ==> a == b
    decreases MembersSize(a) + MembersSize(b)
  {
    if a != [] && b != [] {
      MemberTrichotomy(a[0], b[0]);
      MembersTrichotomy(a[1..], b[1..]);
      assert a == [a[0]] + a[1..] && b == [b[0]] + b[1..];
    }
  }

  lemma {:induction false} Transitive(a: Value, b: Value, c: Value)
    requires Less(a, b) && Less(b, c)
    ensures Less(a, c)
    decreases Size(a) + Size(b) + Size(c), 0
  {
    if Tag(a) == Tag(b) == Tag(c) {
      match a
      case Text(s) => BytesTransitive(s, b.s, c.s);
      case Array(elems) =>
        if |elems| == |b.elems| == |c.elems| {
          ElemsTransitive(elems, b.elems, c.elems);
        }
      case Object(members) =>
        if |members| == |b.members| == |c.members| {
          MembersTransitive(members, b.members, c.members);
        }
      case _ =>
    }
  }

  lemma {:induction false} ElemsTransitive(a: seq<Value>, b: seq<Value>, c: seq<Value>)
    requires ElemsLess(a, b) && ElemsLess(b, c)
    ensures ElemsLess(a, c)
    decreases ElemsSize(a) + ElemsSize(b) + ElemsSize(c)
  {
    if a != [] {
      Trichotomy(a[0], b[0]);
      Trichotomy(b[0], c[0]);
      Trichotomy(a[0], c[0]);
      if Less(a[0], b[0]) && Less(b[0], c[0]) {
        Transitive(a[0], b[0], c[0]);
      } else if a[0] == b[0] == c[0] {
        ElemsTransitive(a[1..], b[1..], c[1..]);
      }
    }
  }

  lemma {:induction false} MemberTransitive(m: Member, n: Member, o: Member)
    requires MemberLess(m, n) && MemberLess(n, o)
    ensures MemberLess(m, o)
    decreases Size(m.value) + Size(n.value) + Size(o.value), 1
  {
    BytesTrichotomy(m.key, n.key);
    BytesTrichotomy(n.key, o.key);
    if BytesLess(m.key, n.key) && BytesLess(n.key, o.key) {
      BytesTransitive(m.key, n.key, o.key);
    } else if m.key == n.key == o.key {
      Transitive(m.value, n.value, o.value);
    }
  }

  lemma {:induction false} MembersTransitive(a: seq<Member>, b: seq<Member>, c: seq<Member>)
    requires MembersLess(a, b) && MembersLess(b, c)
    ensures MembersLess(a, c)
    decreases MembersSize(a) + MembersSize(b) + MembersSize(c)
  {
    if a != [] {
      MemberTrichotomy(a[0], b[0]);
      MemberTrichotomy(b[0], c[0]);
      MemberTrichotomy(a[0], c[0]);
      if MemberLess(a[0], b[0]) && MemberLess(b[0], c[0]) {
        MemberTransitive(a[0], b[0], c[0]);
      } else if a[0] == b[0] == c[0] {
        MembersTransitive(a[1..], b[1..], c[1..]);
      }
    }
  }

  lemma EqualBytes(a: bytes, b: bytes)
    ensures |a| == |b| && MemCmp(a, b, |a|) == 0 <==> a == b
  {
    if |a| == |b| {
      MemCmpZero(a, b, |a|);
      assert a[..|a|] == a && b[..|b|] == b;
    }
  }

  /** `operator==` holds of equal values only. */
  lemma {:induction false} EqualIsIdentity(a: Value, b: Value)
    ensures Equal(a, b) <==> a == b
    decreases a
  {
    if Tag(a) == Tag(b) {
      match a
      case Text(s) =>
        if b.Text? {
          EqualBytes(s, b.s);
        }
      case Array(elems) =>
        forall i | 0 <= i < |elems| && i < |b.elems| ensures Equal(elems[i], b.elems[i]) <==> elems[i] == b.elems[i] {
          EqualIsIdentity(elems[i], b.elems[i]);
        }
      case Object(members) =>
        forall i | 0 <= i < |members| && i < |b.members|
          ensures Equal(members[i].value, b.members[i].value) <==> members[i].value == b.members[i].value
          ensures |members[i].key| == |b.members[i].key| &&
                  MemCmp(members[i].key, b.members[i].key, |members[i].key|) == 0 <==>
                  members[i].key == b.members[i].key
        {
          EqualIsIdentity(members[i].value, b.members[i].value);
          EqualBytes(members[i].key, b.members[i].key);
        }
      case _ =>
    }
  }

  /** `operator<` is a strict total order, and neither side is less exactly when `operator==` holds. */
  lemma StrictTotalOrder(a: Value, b: Value, c: Value)
    ensures !Less(a, a)
    ensures Less(a, b) && Less(b, c) ==> Less(a, c)
    ensures Less(a, b) ==> !Less(b, a)
    ensures !Less(a, b) && !Less(b, a) <==> Equal(a, b)
  {
    Trichotomy(a, a);
    Trichotomy(a, b);
    Trichotomy(b, a);
    EqualIsIdentity(a, b);
    if Less(a, b) && Less(b, c) {
      Transitive(a, b, c);
    }
  }
}
