/** What the hash of schema.h can tell apart: every step of it is one to one, so two values that differ in one place
    have one hash exactly when the two parts at that place do. */
module HashTelling {
  import opened Bytes
  import opened Dom
  import opened Hashing

  /** The step undone: the prime has an inverse in 64 bits. */
  function Back(x: bv64): (r: bv64) { x * 0xce965057aff6957b }

  lemma HashIs(h: bv64, d: bv64)
    ensures Hash(h, d) == (h ^ d) * 0x100000001b3
  {
  }

  lemma XorIs(h: bv64, d: bv64)
    ensures Xor(h, d) == h ^ d
  {
  }

  lemma BackIs(h: bv64, d: bv64)
    ensures Back((h ^ d) * 0x100000001b3) == h ^ d
  {
    assert (h ^ d) * 0x100000001b3 * 0xce965057aff6957b == h ^ d;
  }

  lemma BackUndoes(h: bv64, d: bv64)
    ensures Back(Hash(h, d)) == Xor(h, d)
  {
    hide Back, Hash, Xor;
    HashIs(h, d);
    BackIs(h, d);
    XorIs(h, d);
  }

  lemma XorUndoes(h: bv64, d: bv64)
    ensures Xor(h, Xor(h, d)) == d && Xor(Xor(h, d), d) == h
  {
  }

  /** A step loses nothing of the hash so far and nothing of what is hashed. */
  lemma StepIsOneToOne(g: bv64, h: bv64, c: bv64, d: bv64)
    ensures Hash(h, c) == Hash(h, d) <==> c == d
    ensures Hash(g, d) == Hash(h, d) <==> g == h
  {
    hide Back, Hash, Xor;
    BackUndoes(h, c);
    BackUndoes(h, d);
    BackUndoes(g, d);
    XorIsOneToOne(g, h, c, d);
  }

  lemma XorIsOneToOne(g: bv64, h: bv64, c: bv64, d: bv64)
    ensures Xor(h, c) == Xor(h, d) <==> c == d
    ensures Xor(g, d) == Xor(h, d) <==> g == h
  {
    hide Xor;
    XorUndoes(h, c);
    XorUndoes(h, d);
    XorUndoes(g, d);
  }

  // ----- strings -----

  lemma {:induction false} BytesAreOneToOne(g: bv64, h: bv64, w: Text)
    ensures HashBytes(g, w) == HashBytes(h, w) <==> g == h
    decreases |w|
  {
    hide Hash;
    if w != [] {
      BytesAreOneToOne(Hash(g, w[0] as bv64), Hash(h, w[0] as bv64), w[1..]);
      StepIsOneToOne(g, h, w[0] as bv64, w[0] as bv64);
    }
  }

  lemma {:induction false} BytesSplit(h: bv64, a: Text, b: Text)
    ensures HashBytes(h, a + b) == HashBytes(HashBytes(h, a), b)
    decreases |a|
  {
    hide Hash;
    if a == [] {
      assert a + b == b;
    } else {
      assert (a + b)[0] == a[0] && (a + b)[1..] == a[1..] + b;
      BytesSplit(Hash(h, a[0] as bv64), a[1..], b);
    }
  }

  /** Strings that differ in one byte differ in their hash, the bytes taken as words as the hash takes them. */
  lemma StringsTell(a: Text, x: Byte, y: Byte, b: Text)
    ensures TextHash(a + [x] + b) == TextHash(a + [y] + b) <==> x as bv64 == y as bv64
  {
    BytesApart(Hash(OFFSET_BASIS, STRING_TYPE), a, x, y, b);
  }

  lemma OneByte(h: bv64, x: Byte)
    ensures HashBytes(h, [x]) == Hash(h, x as bv64)
  {
    hide Hash;
    assert [x][1..] == [];
    assert HashBytes(Hash(h, x as bv64), []) == Hash(h, x as bv64);
  }

  /** Two hashes that went on alike but for one byte. */
  lemma BytesApart(h: bv64, a: Text, x: Byte, y: Byte, b: Text)
    ensures HashBytes(h, a + [x] + b) == HashBytes(h, a + [y] + b) <==> x as bv64 == y as bv64
  {
    hide Hash, HashBytes;
    BytesSplit(h, a + [x], b);
    BytesSplit(h, a + [y], b);
    BytesSplit(h, a, [x]);
    BytesSplit(h, a, [y]);
    var g := HashBytes(h, a);
    OneByte(g, x);
    OneByte(g, y);
    BytesAreOneToOne(Hash(g, x as bv64), Hash(g, y as bv64), b);
    StepIsOneToOne(g, g, x as bv64, y as bv64);
  }

  /** Both halves of a number count, the pattern and the double: numbers that differ in one byte of either differ in
      their hash. */
  lemma NumbersTell(u: bv64, v: bv64, d: bv64, a: Text, x: Byte, y: Byte, b: Text)
    requires WordBytes(u, 8) == a + [x] + b && WordBytes(v, 8) == a + [y] + b && x as bv64 != y as bv64
    ensures NumberHash(u, d) != NumberHash(v, d) && NumberHash(d, u) != NumberHash(d, v)
  {
    hide Hash, HashBytes, WordBytes;
    var h, w := Hash(OFFSET_BASIS, NUMBER_TYPE), WordBytes(d, 8);
    BytesSplit(h, WordBytes(u, 8), w);
    BytesSplit(h, WordBytes(v, 8), w);
    BytesApart(h, a, x, y, b);
    BytesAreOneToOne(HashBytes(h, WordBytes(u, 8)), HashBytes(h, WordBytes(v, 8)), w);
    BytesSplit(h, w, WordBytes(u, 8));
    BytesSplit(h, w, WordBytes(v, 8));
    BytesApart(HashBytes(h, w), a, x, y, b);
  }

  /** So it is for the integers of a tree, and for its doubles. */
  lemma IntegersTell(floats: Floats, m: int, n: int, a: Text, x: Byte, y: Byte, b: Text)
    requires -TWO_63 <= m < TWO_64 && -TWO_63 <= n < TWO_64 && floats.ofInteger(m) == floats.ofInteger(n)
    requires WordBytes((m % TWO_64) as bv64, 8) == a + [x] + b && WordBytes((n % TWO_64) as bv64, 8) == a + [y] + b
    requires x as bv64 != y as bv64
    ensures HashOf(floats, Canonical(m)) != HashOf(floats, Canonical(n))
  {
    hide NumberHash, WordBytes, NumberEvent;
    NumberEventIsExact(m);
    NumberEventIsExact(n);
    NumbersTell((m % TWO_64) as bv64, (n % TWO_64) as bv64, floats.ofInteger(m), a, x, y, b);
  }

  lemma DoublesTell(floats: Floats, m: Text, n: Text, a: Text, x: Byte, y: Byte, b: Text)
    requires floats.ofLiteral(m).0 == floats.ofLiteral(n).0 && x as bv64 != y as bv64
    requires WordBytes(floats.ofLiteral(m).1, 8) == a + [x] + b && WordBytes(floats.ofLiteral(n).1, 8) == a + [y] + b
    ensures HashOf(floats, DoubleValue(m)) != HashOf(floats, DoubleValue(n))
  {
    hide NumberHash, WordBytes;
    NumbersTell(floats.ofLiteral(m).1, floats.ofLiteral(n).1, floats.ofLiteral(m).0, a, x, y, b);
  }

  /** Null, true and false differ. */
  lemma WordsTell(floats: Floats)
    ensures HashOf(floats, NullValue) != HashOf(floats, BoolValue(false))
    ensures HashOf(floats, NullValue) != HashOf(floats, BoolValue(true))
    ensures HashOf(floats, BoolValue(false)) != HashOf(floats, BoolValue(true))
  {
    hide Hash;
    StepIsOneToOne(OFFSET_BASIS, OFFSET_BASIS, NULL_TYPE, FALSE_TYPE);
    StepIsOneToOne(OFFSET_BASIS, OFFSET_BASIS, NULL_TYPE, TRUE_TYPE);
    StepIsOneToOne(OFFSET_BASIS, OFFSET_BASIS, FALSE_TYPE, TRUE_TYPE);
  }

  // ----- arrays and objects -----

  lemma {:induction false} ElementsAreOneToOne(floats: Floats, g: bv64, h: bv64, elements: seq<Value>)
    ensures HashElements(floats, g, elements) == HashElements(floats, h, elements) <==> g == h
    decreases |elements|
  {
    hide Hash, HashOf;
    if elements != [] {
      var x := HashOf(floats, elements[0]);
      ElementsAreOneToOne(floats, Hash(g, x), Hash(h, x), elements[1..]);
      StepIsOneToOne(g, h, x, x);
    }
  }

  lemma {:induction false} ElementTells(floats: Floats, h: bv64, elements: seq<Value>, k: nat, x: Value)
    requires k < |elements|
    ensures HashElements(floats, h, elements[k := x]) == HashElements(floats, h, elements)
       <==> HashOf(floats, x) == HashOf(floats, elements[k])
    decreases k
  {
    hide Hash, HashOf;
    var a, b := HashOf(floats, elements[0]), HashOf(floats, elements[k := x][0]);
    if k == 0 {
      assert elements[k := x][1..] == elements[1..];
      ElementsAreOneToOne(floats, Hash(h, a), Hash(h, b), elements[1..]);
      StepIsOneToOne(h, h, a, b);
    } else {
      assert elements[k := x][1..] == elements[1..][k - 1 := x];
      ElementTells(floats, Hash(h, a), elements[1..], k - 1, x);
    }
  }

  lemma {:induction false} MembersAreOneToOne(floats: Floats, g: bv64, h: bv64, members: seq<Member>)
    ensures HashMembers(floats, g, members) == HashMembers(floats, h, members) <==> g == h
    decreases |members|
  {
    hide Xor, MemberHash;
    if members != [] {
      var x := MemberHash(floats, members[0]);
      MembersAreOneToOne(floats, Xor(g, x), Xor(h, x), members[1..]);
      XorIsOneToOne(g, h, x, x);
    }
  }

  lemma {:induction false} MemberTells(floats: Floats, h: bv64, members: seq<Member>, k: nat, m: Member)
    requires k < |members|
    ensures HashMembers(floats, h, members[k := m]) == HashMembers(floats, h, members)
       <==> MemberHash(floats, m) == MemberHash(floats, members[k])
    decreases k
  {
    hide Xor, MemberHash;
    var a, b := MemberHash(floats, members[0]), MemberHash(floats, members[k := m][0]);
    if k == 0 {
      assert members[k := m][1..] == members[1..];
      MembersAreOneToOne(floats, Xor(h, a), Xor(h, b), members[1..]);
      XorIsOneToOne(h, h, a, b);
    } else {
      assert members[k := m][1..] == members[1..][k - 1 := m];
      MemberTells(floats, Xor(h, a), members[1..], k - 1, m);
    }
  }

  /** An array with another element in one place. */
  lemma ArraysTell(floats: Floats, elements: seq<Value>, k: nat, x: Value)
    requires k < |elements|
    ensures HashOf(floats, ArrayValue(elements[k := x])) == HashOf(floats, ArrayValue(elements))
       <==> HashOf(floats, x) == HashOf(floats, elements[k])
  {
    hide Hash, HashElements, BufferHash, IntegerHash, NumberHash, TextHash;
    ElementTells(floats, Hash(0, ARRAY_TYPE), elements, k, x);
  }

  /** An object with another value under one of its names, or with another name for one of its values. */
  lemma ObjectsTell(floats: Floats, members: seq<Member>, k: nat, name: Text, x: Value)
    requires k < |members|
    ensures HashOf(floats, ObjectValue(members[k := members[k].(value := x)])) == HashOf(floats, ObjectValue(members))
       <==> HashOf(floats, x) == HashOf(floats, members[k].value)
    ensures HashOf(floats, ObjectValue(members[k := members[k].(name := name)])) == HashOf(floats, ObjectValue(members))
       <==> TextHash(name) == TextHash(members[k].name)
  {
    hide Hash, HashMembers, TextHash, BufferHash, IntegerHash, NumberHash;
    var m, start := members[k], Hash(0, OBJECT_TYPE);
    MemberTells(floats, start, members, k, m.(value := x));
    MemberTells(floats, start, members, k, m.(name := name));
    var a, b := Hash(0, TextHash(m.name)), Hash(0, TextHash(name));
    StepIsOneToOne(a, a, HashOf(floats, x), HashOf(floats, m.value));
    StepIsOneToOne(b, a, HashOf(floats, m.value), HashOf(floats, m.value));
    StepIsOneToOne(0, 0, TextHash(name), TextHash(m.name));
  }
}
