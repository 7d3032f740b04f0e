/** The tag- and length-prefixed encoding of structured values. */
module CanonicalValue {
  import opened Basics

  datatype RootKind = Repository | Generated | External | Toolchain

  datatype Field = Field(key: string, value: Value)

  /** A structured value. An object lists its fields in the key order of the map it stands for. */
  datatype Value =
    | Null
    | Boolean(flag: bool)
    | Number(number: int64)
    | Text(text: string)
    | Array(items: seq<Value>)
    | Object(fields: seq<Field>)
    | Path(rootKind: RootKind, rootId: string, relativePath: string)

  // ----- Fixed-width integers -----

  /** The `width` low bytes of `n`, most significant first. */
  function BigEndian(n: nat, width: nat): (s: string)
    ensures |s| == width
  {
    if width == 0 then "" else BigEndian(n / 256, width - 1) + [(n % 256) as char]
  }

  /** The value of a run of bytes, most significant first. */
  function BigEndianValue(s: string): int {
    if s == [] then 0 else BigEndianValue(s[..|s| - 1]) * 256 + s[|s| - 1] as int
  }

  function Power256(k: nat): nat {
    if k == 0 then 1 else 256 * Power256(k - 1)
  }

  lemma {:induction false} BigEndianReads(n: nat, width: nat)
    requires n < Power256(width)
    ensures BigEndianValue(BigEndian(n, width)) == n
    decreases width
  {
    if width > 0 {
      BigEndianReads(n / 256, width - 1);
      var s := BigEndian(n, width);
      assert s[..|s| - 1] == BigEndian(n / 256, width - 1);
    }
  }

  /** Eight bytes, modulo 2^64: a `std::size_t` length or an unsigned value. */
  function U64(n: nat): (s: string)
    ensures |s| == 8
  {
    BigEndian(n % TWO_64, 8)
  }

  /** The two's complement bytes of a signed value. */
  function I64(v: int64): (s: string)
    ensures |s| == 8
  {
    U64(if v < 0 then v as int + TWO_64 else v as int)
  }

  lemma PowerOfEight()
    ensures Power256(8) == TWO_64
  {
    assert Power256(4) == 0x1_0000_0000;
    assert Power256(8) == 256 * (256 * (256 * (256 * Power256(4))));
  }

  lemma U64Injective(m: nat, n: nat)
    requires m < TWO_64 && n < TWO_64 && U64(m) == U64(n)
    ensures m == n
  {
    hide BigEndian, BigEndianValue, Power256;
    PowerOfEight();
    BigEndianReads(m, 8);
    BigEndianReads(n, 8);
  }

  lemma I64Injective(v: int64, w: int64)
    requires I64(v) == I64(w)
    ensures v == w
  {
    U64Injective(if v < 0 then v as int + TWO_64 else v as int, if w < 0 then w as int + TWO_64 else w as int);
  }

  // ----- The encoding -----

  function Counted(s: string): string {
    U64(|s|) + s
  }

  function RootByte(kind: RootKind): char {
    match kind
    case Repository => 0 as char
    case Generated => 1 as char
    case External => 2 as char
    case Toolchain => 3 as char
  }

  function Tag(v: Value): char {
    match v
    case Null => 0 as char
    case Boolean(_) => 1 as char
    case Number(_) => 2 as char
    case Text(_) => 3 as char
    case Array(_) => 4 as char
    case Object(_) => 5 as char
    case Path(_, _, _) => 6 as char
  }

  function Encode(v: Value): string
    decreases v, 1
  {
    [Tag(v)] + Payload(v)
  }

  function Payload(v: Value): string
    decreases v, 0
  {
    match v
    case Null => ""
    case Boolean(flag) => [if flag then 1 as char else 0 as char]
    case Number(number) => I64(number)
    case Text(text) => Counted(text)
    case Array(items) => U64(|items|) + EncodeItems(items)
    case Object(fields) => U64(|fields|) + EncodeFields(fields)
    case Path(rootKind, rootId, relativePath) => [RootByte(rootKind)] + Counted(rootId) + Counted(relativePath)
  }

  function EncodeItems(items: seq<Value>): string
    decreases items, 0
  {
    if items == [] then "" else Encode(items[0]) + EncodeItems(items[1..])
  }

  function EncodeFields(fields: seq<Field>): string
    decreases fields, 0
  {
    if fields == [] then ""
    else Counted(fields[0].key) + Encode(fields[0].value) + EncodeFields(fields[1..])
  }

  /** Every length in the value fits the eight bytes it is written in, as every `std::size_t` does. */
  predicate Sized(v: Value) {
    match v
    case Text(text) => |text| < TWO_64
    case Array(items) => |items| < TWO_64 && forall item <- items :: Sized(item)
    case Object(fields) => |fields| < TWO_64 && forall field <- fields :: |field.key| < TWO_64 && Sized(field.value)
    case Path(_, rootId, relativePath) => |rootId| < TWO_64 && |relativePath| < TWO_64
    case _ => true
  }

  // ----- Nothing encoded is a prefix of another encoding -----

  lemma SplitEqual(a: string, b: string, r: string, t: string)
    requires a + r == b + t && |a| == |b|
    ensures a == b && r == t
  {
    assert a == (a + r)[..|a|] && b == (b + t)[..|b|];
    assert r == (a + r)[|a|..] && t == (b + t)[|b|..];
  }

  lemma Regroup(a: string, b: string, c: string)
    ensures a + b + c == a + (b + c)
  {}

  lemma CountedPrefixFree(s: string, t: string, r: string, u: string)
    requires |s| < TWO_64 && |t| < TWO_64 && Counted(s) + r == Counted(t) + u
    ensures s == t && r == u
  {
    hide U64;
    Regroup(U64(|s|), s, r);
    Regroup(U64(|t|), t, u);
    SplitEqual(U64(|s|), U64(|t|), s + r, t + u);
    U64Injective(|s|, |t|);
    SplitEqual(s, t, r, u);
  }

  /** An encoding determines the value and where it ends, at any nesting. */
  lemma {:induction false} EncodePrefixFree(v: Value, w: Value, r: string, u: string)
    requires Sized(v) && Sized(w) && Encode(v) + r == Encode(w) + u
    ensures v == w && r == u
    decreases v, 1
  {
    hide Payload, Sized;
    Regroup([Tag(v)], Payload(v), r);
    Regroup([Tag(w)], Payload(w), u);
    SplitEqual([Tag(v)], [Tag(w)], Payload(v) + r, Payload(w) + u);
    PayloadPrefixFree(v, w, r, u);
  }

  lemma {:induction false} PayloadPrefixFree(v: Value, w: Value, r: string, u: string)
    requires Sized(v) && Sized(w) && Tag(v) == Tag(w) && Payload(v) + r == Payload(w) + u
    ensures v == w && r == u
    decreases v, 0
  {
    hide U64, I64, EncodeItems, EncodeFields, Counted;
    match v
    case Null => SplitEqual("", "", r, u);
    case Boolean(flag) => SplitEqual(Payload(v), Payload(w), r, u);
    case Number(number) =>
      SplitEqual(Payload(v), Payload(w), r, u);
      I64Injective(number, w.number);
    case Text(text) => CountedPrefixFree(text, w.text, r, u);
    case Array(items) =>
      Regroup(U64(|items|), EncodeItems(items), r);
      Regroup(U64(|w.items|), EncodeItems(w.items), u);
      SplitEqual(U64(|items|), U64(|w.items|), EncodeItems(items) + r, EncodeItems(w.items) + u);
      U64Injective(|items|, |w.items|);
      ItemsPrefixFree(items, w.items, r, u);
    case Object(fields) =>
      Regroup(U64(|fields|), EncodeFields(fields), r);
      Regroup(U64(|w.fields|), EncodeFields(w.fields), u);
      SplitEqual(U64(|fields|), U64(|w.fields|), EncodeFields(fields) + r, EncodeFields(w.fields) + u);
      U64Injective(|fields|, |w.fields|);
      FieldsPrefixFree(fields, w.fields, r, u);
    case Path(rootKind, rootId, relativePath) => PathPrefixFree(v, w, r, u);
  }

  lemma PathPrefixFree(v: Value, w: Value, r: string, u: string)
    requires v.Path? && w.Path? && Sized(v) && Sized(w) && Payload(v) + r == Payload(w) + u
    ensures v == w && r == u
  {
    hide Counted;
    var a, b := [RootByte(v.rootKind)], [RootByte(w.rootKind)];
    assert Payload(v) + r == a + (Counted(v.rootId) + (Counted(v.relativePath) + r));
    assert Payload(w) + u == b + (Counted(w.rootId) + (Counted(w.relativePath) + u));
    SplitEqual(a, b, Counted(v.rootId) + (Counted(v.relativePath) + r),
               Counted(w.rootId) + (Counted(w.relativePath) + u));
    CountedPrefixFree(v.rootId, w.rootId, Counted(v.relativePath) + r, Counted(w.relativePath) + u);
    CountedPrefixFree(v.relativePath, w.relativePath, r, u);
    assert a[0] == b[0];
  }

  lemma {:induction false} ItemsPrefixFree(vs: seq<Value>, ws: seq<Value>, r: string, u: string)
    requires |vs| == |ws| && (forall v <- vs :: Sized(v)) && (forall w <- ws :: Sized(w))
    requires EncodeItems(vs) + r == EncodeItems(ws) + u
    ensures vs == ws && r == u
    decreases vs, 0
  {
    hide Encode, Sized;
    if vs == [] {
      SplitEqual("", "", r, u);
    } else {
      Regroup(Encode(vs[0]), EncodeItems(vs[1..]), r);
      Regroup(Encode(ws[0]), EncodeItems(ws[1..]), u);
      EncodePrefixFree(vs[0], ws[0], EncodeItems(vs[1..]) + r, EncodeItems(ws[1..]) + u);
      ItemsPrefixFree(vs[1..], ws[1..], r, u);
    }
  }

  lemma {:induction false} FieldsPrefixFree(vs: seq<Field>, ws: seq<Field>, r: string, u: string)
    requires |vs| == |ws|
    requires forall f <- vs :: |f.key| < TWO_64 && Sized(f.value)
    requires forall f <- ws :: |f.key| < TWO_64 && Sized(f.value)
    requires EncodeFields(vs) + r == EncodeFields(ws) + u
    ensures vs == ws && r == u
    decreases vs, 0
  {
    hide Encode, Sized, Counted;
    if vs == [] {
      SplitEqual("", "", r, u);
    } else {
      var f, g := vs[0], ws[0];
      var a, b := EncodeFields(vs[1..]) + r, EncodeFields(ws[1..]) + u;
      assert EncodeFields(vs) + r == Counted(f.key) + (Encode(f.value) + a);
      assert EncodeFields(ws) + u == Counted(g.key) + (Encode(g.value) + b);
      CountedPrefixFree(f.key, g.key, Encode(f.value) + a, Encode(g.value) + b);
      EncodePrefixFree(f.value, g.value, a, b);
      FieldsPrefixFree(vs[1..], ws[1..], r, u);
    }
  }

  /** Two values with the same bytes are the same value. */
  lemma EncodeInjective(v: Value, w: Value)
    requires Sized(v) && Sized(w) && Encode(v) == Encode(w)
    ensures v == w
  {
    hide Encode;
    assert Encode(v) + "" == Encode(w) + "";
    EncodePrefixFree(v, w, "", "");
  }

  // ----- The encoder, byte by byte -----

  /** `n >> (8 * k)`. */
  function ShiftBytes(n: nat, k: nat): nat {
    if k == 0 then n else ShiftBytes(n, k - 1) / 256
  }

  lemma ShiftNone(n: nat)
    ensures ShiftBytes(n, 0) == n
  {}

  lemma NextByte(val: nat, i: nat, width: nat)
    ensures BigEndian(ShiftBytes(val, i), width + 1)
         == BigEndian(ShiftBytes(val, i + 1), width) + [(ShiftBytes(val, i) % 256) as char]
  {}

  /** Pushes the eight bytes of `val`, the most significant first. */
  method AppendU64(out: string, val: nat) returns (r: string)
    requires val < TWO_64
    ensures r == out + U64(val)
  {
    hide ShiftBytes;
    r := out;
    for i := 8 downto 0
      invariant r == out + BigEndian(ShiftBytes(val, i), 8 - i)
    {
      hide BigEndian;
      NextByte(val, i, 7 - i);
      r := r + [(ShiftBytes(val, i) % 256) as char];
    }
    assert ShiftBytes(val, 0) == val by { ShiftNone(val); }
  }

  method AppendString(out: string, s: string) returns (r: string)
    requires |s| < TWO_64
    ensures r == out + Counted(s)
  {
    r := AppendU64(out, |s|);
    for i := 0 to |s|
      invariant r == out + U64(|s|) + s[..i]
    {
      r := r + [s[i]];
    }
  }

  /** Appends every element's encoding in order. */
  method EncodeArray(items: seq<Value>) returns (r: string)
    requires Sized(Array(items))
    ensures r == Encode(Array(items))
    decreases items, 1
  {
    hide U64;
    r := AppendU64([Tag(Array(items))], |items|);
    ghost var head := r;
    for i := 0 to |items|
      invariant r + EncodeItems(items[i..]) == head + EncodeItems(items)
    {
      assert items[i] in items && items[i..][1..] == items[i + 1..];
      var encoded := EncodeValue(items[i]);
      Regroup(r, encoded, EncodeItems(items[i + 1..]));
      r := r + encoded;
    }
    assert items[|items|..] == [];
    Regroup([Tag(Array(items))], U64(|items|), EncodeItems(items));
  }

  method EncodeObject(fields: seq<Field>) returns (r: string)
    requires Sized(Object(fields))
    ensures r == Encode(Object(fields))
    decreases fields, 1
  {
    hide U64;
    r := AppendU64([Tag(Object(fields))], |fields|);
    ghost var head := r;
    for i := 0 to |fields|
      invariant r + EncodeFields(fields[i..]) == head + EncodeFields(fields)
    {
      assert fields[i] in fields && fields[i..][1..] == fields[i + 1..];
      r := AppendString(r, fields[i].key);
      var encoded := EncodeValue(fields[i].value);
      r := r + encoded;
    }
    assert fields[|fields|..] == [];
    Regroup([Tag(Object(fields))], U64(|fields|), EncodeFields(fields));
  }

  method EncodeValue(v: Value) returns (r: string)
    requires Sized(v)
    ensures r == Encode(v)
    decreases v, 2
  {
    hide U64, Counted;
    match v
    case Null => r := [Tag(v)];
    case Boolean(flag) => r := [Tag(v), if flag then 1 as char else 0 as char];
    case Number(number) => r := AppendU64([Tag(v)], if number < 0 then number as int + TWO_64 else number as int);
    case Text(text) => r := AppendString([Tag(v)], text);
    case Array(items) => r := EncodeArray(items);
    case Object(fields) => r := EncodeObject(fields);
    case Path(rootKind, rootId, relativePath) =>
      r := AppendString([Tag(v), RootByte(rootKind)], rootId);
      r := AppendString(r, relativePath);
  }
}
