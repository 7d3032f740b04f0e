/** A reader of the canonical byte format, written from the format alone, and the encoder as its inverse. */
module CanonicalDecoder {
  import opened Basics
  import opened CanonicalValue

  /** What was read, and the bytes behind it. */
  type Read<+T> = Option<(T, string)>

  // ----- The readers -----

  predicate IsByte(c: char) {
    c as int < 256
  }

  function TakeByte(s: string): (r: Read<int>)
    ensures r.Some? ==> |r.value.1| + 1 == |s|
  {
    if s != "" && IsByte(s[0]) then Some((s[0] as int, s[1..])) else None
  }

  /** Eight bytes, each worth 256 times the next. */
  function TakeUnsigned(s: string): (r: Read<int>)
    ensures r.Some? ==> |r.value.1| + 8 == |s| && 0 <= r.value.0 < TWO_64
  {
    if |s| < 8 || (exists i | 0 <= i < 8 :: !IsByte(s[i])) then None
    else
      var value := s[0] as int * 0x100_0000_0000_0000 + s[1] as int * 0x1_0000_0000_0000
                   + s[2] as int * 0x100_0000_0000 + s[3] as int * 0x1_0000_0000 + s[4] as int * 0x100_0000
                   + s[5] as int * 0x1_0000 + s[6] as int * 0x100 + s[7] as int;
      Some((value, s[8..]))
  }

  /** The upper half of the unsigned numbers stands for the negative ones. */
  function TakeSigned(s: string): (r: Read<int64>)
    ensures r.Some? ==> |r.value.1| + 8 == |s|
  {
    var (n, rest) :- TakeUnsigned(s);
    Some((if n <= INT64_MAX then n as int64 else (n - TWO_64) as int64, rest))
  }

  /** A length, and as many characters. */
  function TakeText(s: string): (r: Read<string>)
    ensures r.Some? ==> |r.value.1| + 8 <= |s|
  {
    var (n, rest) :- TakeUnsigned(s);
    if n <= |rest| then Some((rest[..n], rest[n..])) else None
  }

  function TakeRootKind(s: string): (r: Read<RootKind>)
    ensures r.Some? ==> |r.value.1| < |s|
  {
    var (kind, rest) :- TakeByte(s);
    if kind == 0 then Some((Repository, rest))
    else if kind == 1 then Some((Generated, rest))
    else if kind == 2 then Some((External, rest))
    else if kind == 3 then Some((Toolchain, rest))
    else None
  }

  /** One value: the byte that says what it is, and what that calls for. */
  function Decode(s: string): (r: Read<Value>)
    ensures r.Some? ==> |r.value.1| < |s|
    decreases |s|, 0
  {
    var (tag, body) :- TakeByte(s);
    if tag == 0 then Some((Null, body))
    else if tag == 1 then
      var (flag, rest) :- TakeByte(body);
      if flag == 0 then Some((Boolean(false), rest)) else if flag == 1 then Some((Boolean(true), rest)) else None
    else if tag == 2 then
      var (number, rest) :- TakeSigned(body);
      Some((Number(number), rest))
    else if tag == 3 then
      var (text, rest) :- TakeText(body);
      Some((Text(text), rest))
    else if tag == 4 then
      var (count, from) :- TakeUnsigned(body);
      var (items, rest) :- DecodeItems(count, from);
      Some((Array(items), rest))
    else if tag == 5 then
      var (count, from) :- TakeUnsigned(body);
      var (fields, rest) :- DecodeFields(count, from);
      Some((Object(fields), rest))
    else if tag == 6 then
      var (rootKind, ids) :- TakeRootKind(body);
      var (rootId, path) :- TakeText(ids);
      var (relativePath, rest) :- TakeText(path);
      Some((Path(rootKind, rootId, relativePath), rest))
    else None
  }

  function DecodeItems(count: nat, s: string): (r: Read<seq<Value>>)
    ensures r.Some? ==> |r.value.1| <= |s|
    decreases |s|, 1
  {
    if count == 0 then Some(([], s))
    else
      var (first, from) :- Decode(s);
      var (others, rest) :- DecodeItems(count - 1, from);
      Some(([first] + others, rest))
  }

  function DecodeFields(count: nat, s: string): (r: Read<seq<Field>>)
    ensures r.Some? ==> |r.value.1| <= |s|
    decreases |s|, 1
  {
    if count == 0 then Some(([], s))
    else
      var (key, at) :- TakeText(s);
      var (value, from) :- Decode(at);
      var (others, rest) :- DecodeFields(count - 1, from);
      Some(([Field(key, value)] + others, rest))
  }

  // ----- Numbers and texts -----

  predicate AllBytes(s: string) {
    forall c <- s :: IsByte(c)
  }

  lemma {:induction false} BigEndianIsBytes(n: nat, width: nat)
    ensures AllBytes(BigEndian(n, width))
    decreases width
  {
    if width > 0 {
      BigEndianIsBytes(n / 256, width - 1);
    }
  }

  lemma {:induction false} ValueBound(s: string)
    requires AllBytes(s)
    ensures 0 <= BigEndianValue(s) < Power256(|s|)
    decreases |s|
  {
    if s != [] {
      ValueBound(s[..|s| - 1]);
      assert s[|s| - 1] in s;
    }
  }

  lemma {:induction false} ValueWrites(s: string)
    requires AllBytes(s)
    ensures BigEndianValue(s) >= 0 && BigEndian(BigEndianValue(s), |s|) == s
    decreases |s|
  {
    if s != [] {
      var front, last := s[..|s| - 1], s[|s| - 1];
      assert s == front + [last] && last in s;
      ValueWrites(front);
      assert BigEndianValue(s) / 256 == BigEndianValue(front) && BigEndianValue(s) % 256 == last as int;
    }
  }

  lemma FirstBytes(s: string, k: nat)
    requires 0 < k <= |s|
    ensures s[..k][..k - 1] == s[..k - 1] && s[..k][k - 1] == s[k - 1]
    ensures BigEndianValue(s[..k]) == BigEndianValue(s[..k - 1]) * 256 + s[k - 1] as int
  {}

  /** Eight bytes added up by their weights are the number they spell. */
  lemma EightBytes(s: string)
    requires |s| >= 8 && AllBytes(s[..8])
    ensures TakeUnsigned(s) == Some((BigEndianValue(s[..8]), s[8..]))
  {
    hide BigEndianValue;
    FirstBytes(s, 8);
    FirstBytes(s, 7);
    FirstBytes(s, 6);
    FirstBytes(s, 5);
    FirstBytes(s, 4);
    FirstBytes(s, 3);
    FirstBytes(s, 2);
    FirstBytes(s, 1);
    NoBytes(s);
    assert forall i | 0 <= i < 8 :: s[i] == s[..8][i];
  }

  lemma NoBytes(s: string)
    ensures BigEndianValue(s[..0]) == 0
  {}

  lemma TakesUnsigned(n: nat, rest: string)
    requires n < TWO_64
    ensures TakeUnsigned(U64(n) + rest) == Some((n, rest))
  {
    hide BigEndian, BigEndianValue, TakeUnsigned, Power256;
    var s := U64(n) + rest;
    assert s[..8] == U64(n) && s[8..] == rest;
    BigEndianIsBytes(n, 8);
    EightBytes(s);
    PowerOfEight();
    BigEndianReads(n, 8);
  }

  lemma UnsignedTaken(s: string)
    requires TakeUnsigned(s).Some?
    ensures s == U64(TakeUnsigned(s).value.0) + TakeUnsigned(s).value.1
  {
    hide BigEndian, BigEndianValue;
    assert forall i | 0 <= i < 8 :: s[..8][i] == s[i];
    EightBytes(s);
    ValueWrites(s[..8]);
    assert s == s[..8] + s[8..];
  }

  lemma TakesSigned(v: int64, rest: string)
    ensures TakeSigned(I64(v) + rest) == Some((v, rest))
  {
    hide TakeUnsigned, U64;
    TakesUnsigned(if v < 0 then v as int + TWO_64 else v as int, rest);
  }

  lemma SignedTaken(s: string)
    requires TakeSigned(s).Some?
    ensures s == I64(TakeSigned(s).value.0) + TakeSigned(s).value.1
  {
    hide TakeUnsigned, U64;
    UnsignedTaken(s);
  }

  lemma TakesText(text: string, rest: string)
    requires |text| < TWO_64
    ensures TakeText(Counted(text) + rest) == Some((text, rest))
  {
    hide TakeUnsigned, U64;
    Regroup(U64(|text|), text, rest);
    TakesUnsigned(|text|, text + rest);
    assert (text + rest)[..|text|] == text && (text + rest)[|text|..] == rest;
  }

  lemma TextTaken(s: string)
    requires TakeText(s).Some?
    ensures |TakeText(s).value.0| < TWO_64 && s == Counted(TakeText(s).value.0) + TakeText(s).value.1
  {
    hide TakeUnsigned, U64;
    UnsignedTaken(s);
    var (n, rest) := TakeUnsigned(s).value;
    assert rest == rest[..n] + rest[n..];
    Regroup(U64(n), rest[..n], rest[n..]);
  }

  lemma TakesByte(c: char, rest: string)
    requires IsByte(c)
    ensures TakeByte([c] + rest) == Some((c as int, rest))
  {
    assert ([c] + rest)[1..] == rest;
  }

  lemma ByteTaken(s: string)
    requires TakeByte(s).Some?
    ensures s == [s[0]] + TakeByte(s).value.1 && TakeByte(s).value.0 == s[0] as int
  {}

  // ----- Whatever is written is read back -----

  /** Every value reads back from its bytes, and what stands behind them is left. */
  lemma {:induction false} DecodesEncoded(v: Value, rest: string)
    requires Sized(v)
    ensures Decode(Encode(v) + rest) == Some((v, rest))
    decreases v, 1
  {
    hide Payload, Sized, Decode;
    Regroup([Tag(v)], Payload(v), rest);
    TakesByte(Tag(v), Payload(v) + rest);
    DecodesPayload(v, Payload(v) + rest, rest);
  }

  lemma {:induction false} DecodesPayload(v: Value, body: string, rest: string)
    requires Sized(v) && body == Payload(v) + rest
    ensures Decode([Tag(v)] + body) == Some((v, rest))
    decreases v, 0
  {
    hide U64, I64, Counted, EncodeItems, EncodeFields, DecodeItems, DecodeFields;
    hide TakeByte, TakeUnsigned, TakeSigned, TakeText, TakeRootKind;
    TakesByte(Tag(v), body);
    match v
    case Null => assert body == rest;
    case Boolean(flag) => TakesByte(if flag then 1 as char else 0 as char, rest);
    case Number(number) => TakesSigned(number, rest);
    case Text(text) => TakesText(text, rest);
    case Array(items) =>
      Regroup(U64(|items|), EncodeItems(items), rest);
      TakesUnsigned(|items|, EncodeItems(items) + rest);
      DecodesItems(items, rest);
    case Object(fields) =>
      Regroup(U64(|fields|), EncodeFields(fields), rest);
      TakesUnsigned(|fields|, EncodeFields(fields) + rest);
      DecodesFields(fields, rest);
    case Path(rootKind, rootId, relativePath) =>
      assert body == [RootByte(rootKind)] + (Counted(rootId) + (Counted(relativePath) + rest));
      TakesRootKind(rootKind, Counted(rootId) + (Counted(relativePath) + rest));
      TakesText(rootId, Counted(relativePath) + rest);
      TakesText(relativePath, rest);
  }

  lemma TakesRootKind(kind: RootKind, rest: string)
    ensures TakeRootKind([RootByte(kind)] + rest) == Some((kind, rest))
  {
    hide TakeByte;
    TakesByte(RootByte(kind), rest);
  }

  lemma {:induction false} DecodesItems(items: seq<Value>, rest: string)
    requires forall item <- items :: Sized(item)
    ensures DecodeItems(|items|, EncodeItems(items) + rest) == Some((items, rest))
    decreases items, 0
  {
    hide Encode, Sized, Decode;
    if items == [] {
      assert EncodeItems(items) + rest == rest;
    } else {
      Regroup(Encode(items[0]), EncodeItems(items[1..]), rest);
      DecodesEncoded(items[0], EncodeItems(items[1..]) + rest);
      DecodesItems(items[1..], rest);
      assert items == [items[0]] + items[1..];
    }
  }

  lemma {:induction false} DecodesFields(fields: seq<Field>, rest: string)
    requires forall field <- fields :: |field.key| < TWO_64 && Sized(field.value)
    ensures DecodeFields(|fields|, EncodeFields(fields) + rest) == Some((fields, rest))
    decreases fields, 0
  {
    hide Encode, Sized, Decode, Counted, TakeText;
    if fields == [] {
      assert EncodeFields(fields) + rest == rest;
    } else {
      var f, others := fields[0], EncodeFields(fields[1..]) + rest;
      FieldFirst(f, fields[1..], rest);
      assert fields == [f] + fields[1..];
      TakesText(f.key, Encode(f.value) + others);
      DecodesEncoded(f.value, others);
      DecodesFields(fields[1..], rest);
    }
  }

  lemma FieldFirst(f: Field, others: seq<Field>, rest: string)
    ensures EncodeFields([f] + others) + rest ==
            Counted(f.key) + (Encode(f.value) + (EncodeFields(others) + rest))
  {
    hide Encode, Counted;
    assert ([f] + others)[1..] == others;
  }

  // ----- Whatever is read was written -----

  /** Whatever the reader accepts is the encoding of what it returns. */
  lemma {:induction false} DecodedWasEncoded(s: string)
    requires Decode(s).Some?
    ensures var (v, rest) := Decode(s).value;
            Sized(v) && s == Encode(v) + rest
    decreases |s|, 1
  {
    hide Payload, Decode, TakeByte;
    PayloadTaken(s);
    ByteTaken(s);
    var (v, rest) := Decode(s).value;
    Regroup([Tag(v)], Payload(v), rest);
  }

  lemma {:induction false} PayloadTaken(s: string)
    requires Decode(s).Some?
    ensures var (v, rest) := Decode(s).value;
            Sized(v) && TakeByte(s) == Some((Tag(v) as int, Payload(v) + rest))
    decreases |s|, 0
  {
    hide U64, I64, Counted, EncodeItems, EncodeFields, DecodeItems, DecodeFields, Encode;
    hide TakeByte, TakeUnsigned, TakeSigned, TakeText, TakeRootKind;
    var (tag, body) := TakeByte(s).value;
    if tag == 0 {
      assert "" + body == body;
    } else if tag == 1 {
      ByteTaken(body);
    } else if tag == 2 {
      SignedTaken(body);
    } else if tag == 3 {
      TextTaken(body);
    } else if tag == 4 {
      UnsignedTaken(body);
      var (count, from) := TakeUnsigned(body).value;
      ItemsTaken(count, from);
      var (items, rest) := DecodeItems(count, from).value;
      Regroup(U64(count), EncodeItems(items), rest);
    } else if tag == 5 {
      UnsignedTaken(body);
      var (count, from) := TakeUnsigned(body).value;
      FieldsTaken(count, from);
      var (fields, rest) := DecodeFields(count, from).value;
      Regroup(U64(count), EncodeFields(fields), rest);
    } else {
      RootKindTaken(body);
      var (rootKind, ids) := TakeRootKind(body).value;
      TextTaken(ids);
      var (rootId, path) := TakeText(ids).value;
      TextTaken(path);
      var (relativePath, rest) := TakeText(path).value;
      Regroup([RootByte(rootKind)] + Counted(rootId), Counted(relativePath), rest);
      Regroup([RootByte(rootKind)], Counted(rootId), path);
    }
  }

  lemma RootKindTaken(s: string)
    requires TakeRootKind(s).Some?
    ensures s == [RootByte(TakeRootKind(s).value.0)] + TakeRootKind(s).value.1
  {
    hide TakeByte;
    ByteTaken(s);
  }

  lemma {:induction false} ItemsTaken(count: nat, s: string)
    requires DecodeItems(count, s).Some?
    ensures var (items, rest) := DecodeItems(count, s).value;
            |items| == count && (forall item <- items :: Sized(item)) && s == EncodeItems(items) + rest
    decreases |s|, 2
  {
    hide Encode, Sized, Decode;
    if count > 0 {
      DecodedWasEncoded(s);
      ItemsTaken(count - 1, Decode(s).value.1);
    }
  }

  lemma {:induction false} FieldsTaken(count: nat, s: string)
    requires DecodeFields(count, s).Some?
    ensures var (fields, rest) := DecodeFields(count, s).value;
            && |fields| == count && (forall f <- fields :: |f.key| < TWO_64 && Sized(f.value))
            && s == EncodeFields(fields) + rest
    decreases |s|, 2
  {
    hide Encode, Sized, Decode, Counted, TakeText;
    if count > 0 {
      TextTaken(s);
      var at := TakeText(s).value.1;
      DecodedWasEncoded(at);
      var (value, from) := Decode(at).value;
      FieldsTaken(count - 1, from);
      var (others, rest) := DecodeFields(count - 1, from).value;
      FieldFirst(Field(TakeText(s).value.0, value), others, rest);
    }
  }
}
