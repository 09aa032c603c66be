/**
 MessagePack objects and the token stream a packer produces for them. A packer writes headers and
 string, number and byte tokens one by one; nothing but the decoder below makes sure that a map
 or array header is followed by as many objects as it announces.
 */
module Msgpack {

  type Byte = bv8

  datatype Token =
    | NilT
    | TrueT
    | IntT(n: int)
    | StrT(s: string)
    | BinT(size: nat)
    | ByteT(b: Byte)
    | ArrayT(size: nat)
    | MapT(size: nat)

  datatype Value =
    | Nil
    | True
    | Int(n: int)
    | Str(s: string)
    | Bin(bytes: seq<Byte>)
    | Array(items: seq<Value>)
    | Map(entries: seq<Entry>)

  datatype Entry = Entry(key: string, value: Value)

  datatype Result<T> = Failed | Ok(value: T, rest: seq<Token>)

  /** The packer: it appends tokens to its output. */
  class Packer {
    var out: seq<Token>

    constructor ()
      ensures out == []
    {
      out := [];
    }

    method Put(t: Token)
      modifies this
      ensures out == old(out) + [t]
    {
      out := out + [t];
    }

    /** A map entry after those written before. `base` is the output up to the first entry. */
    method PutEntry(key: string, value: Value, ghost base: seq<Token>, ghost before: seq<Entry>)
      requires out == base + EncodeEntries(before)
      modifies this
      ensures out == base + EncodeEntries(before + [Entry(key, value)])
    {
      EncodeEntriesJoin(before, [Entry(key, value)]);
      out := out + [StrT(key)];
      out := out + Encode(value);
    }

    method PutAll(ts: seq<Token>)
      modifies this
      ensures out == old(out) + ts
    {
      out := out + ts;
    }
  }

  function ByteTokens(bytes: seq<Byte>): (ts: seq<Token>)
    ensures |ts| == |bytes| && forall i :: 0 <= i < |ts| ==> ts[i] == ByteT(bytes[i])
  {
    seq(|bytes|, i requires 0 <= i < |bytes| => ByteT(bytes[i]))
  }

  // ---------- encoding ----------

  function Encode(v: Value): seq<Token>
    decreases v
  {
    match v
    case Nil => [NilT]
    case True => [TrueT]
    case Int(n) => [IntT(n)]
    case Str(s) => [StrT(s)]
    case Bin(bytes) => [BinT(|bytes|)] + ByteTokens(bytes)
    case Array(items) => [ArrayT(|items|)] + EncodeAll(items)
    case Map(entries) => [MapT(|entries|)] + EncodeEntries(entries)
  }

  function EncodeAll(items: seq<Value>): seq<Token>
    decreases items
  {
    if items == [] then [] else Encode(items[0]) + EncodeAll(items[1..])
  }

  function EncodeEntries(entries: seq<Entry>): seq<Token>
    decreases entries
  {
    if entries == [] then []
    else [StrT(entries[0].key)] + Encode(entries[0].value) + EncodeEntries(entries[1..])
  }

  // ---------- decoding ----------

  /** The first object of the stream, and what follows it. */
  function Decode(ts: seq<Token>): (r: Result<Value>)
    ensures r.Ok? ==> |r.rest| < |ts|
    decreases |ts|, 0, 0
  {
    if ts == [] then Failed
    else
      var rest := ts[1..];
      match ts[0]
      case NilT => Ok(Nil, rest)
      case TrueT => Ok(True, rest)
      case IntT(n) => Ok(Int(n), rest)
      case StrT(s) => Ok(Str(s), rest)
      case BinT(size) =>
        if size <= |rest| && forall i :: 0 <= i < size ==> rest[i].ByteT?
        then Ok(Bin(seq(size, i requires 0 <= i < size => rest[i].b)), rest[size..])
        else Failed
      case ByteT(_) => Failed
      case ArrayT(size) =>
        (match DecodeAll(size, rest) case Failed => Failed case Ok(items, rest') => Ok(Array(items), rest'))
      case MapT(size) =>
        (match DecodeEntries(size, rest) case Failed => Failed case Ok(es, rest') => Ok(Map(es), rest'))
  }

  function DecodeAll(n: nat, ts: seq<Token>): (r: Result<seq<Value>>)
    ensures r.Ok? ==> |r.rest| <= |ts| && |r.value| == n
    decreases |ts|, 1, n
  {
    if n == 0 then Ok([], ts)
    else match Decode(ts)
      case Failed => Failed
      case Ok(v, rest) =>
        match DecodeAll(n - 1, rest)
        case Failed => Failed
        case Ok(vs, rest') => Ok([v] + vs, rest')
  }

  function DecodeEntries(n: nat, ts: seq<Token>): (r: Result<seq<Entry>>)
    ensures r.Ok? ==> |r.rest| <= |ts| && |r.value| == n
    decreases |ts|, 1, n
  {
    if n == 0 then Ok([], ts)
    else if ts == [] || !ts[0].StrT? then Failed
    else match Decode(ts[1..])
      case Failed => Failed
      case Ok(v, rest) =>
        match DecodeEntries(n - 1, rest)
        case Failed => Failed
        case Ok(es, rest') => Ok([Entry(ts[0].s, v)] + es, rest')
  }

  // ---------- round trip ----------

  /** Decoding what was encoded gives the object back and stops exactly behind it. */
  lemma {:induction false} RoundTrip(v: Value, rest: seq<Token>)
    ensures Decode(Encode(v) + rest) == Ok(v, rest)
    decreases v
  {
    var ts := Encode(v) + rest;
    match v
    case Bin(bytes) => { BinRoundTrip(bytes, rest); }
    case Array(items) => {
      assert ts[1..] == EncodeAll(items) + rest;
      RoundTripAll(items, rest);
    }
    case Map(entries) => {
      assert ts[1..] == EncodeEntries(entries) + rest;
      RoundTripEntries(entries, rest);
    }
    case _ => { assert ts[1..] == rest; }
  }

  lemma BinRoundTrip(bytes: seq<Byte>, rest: seq<Token>)
    ensures Decode(Encode(Bin(bytes)) + rest) == Ok(Bin(bytes), rest)
  {
    var ts := Encode(Bin(bytes)) + rest;
    assert ts[1..] == ByteTokens(bytes) + rest;
    assert forall i :: 0 <= i < |bytes| ==> ts[1..][i] == ByteT(bytes[i]);
    assert seq(|bytes|, i requires 0 <= i < |bytes| => ts[1..][i].b) == bytes;
  }

  lemma {:induction false} RoundTripAll(items: seq<Value>, rest: seq<Token>)
    ensures DecodeAll(|items|, EncodeAll(items) + rest) == Ok(items, rest)
    decreases items
  {
    if items == [] {
      assert EncodeAll(items) + rest == rest;
    } else {
      var after := EncodeAll(items[1..]) + rest;
      assert EncodeAll(items) + rest == Encode(items[0]) + after;
      RoundTrip(items[0], after);
      RoundTripAll(items[1..], rest);
      assert items == [items[0]] + items[1..];
      assert |items[1..]| == |items| - 1;
    }
  }

  lemma DecodeEntriesStep(e: Entry, es: seq<Entry>, ts: seq<Token>, after: seq<Token>, rest: seq<Token>)
    requires Decode(ts) == Ok(e.value, after) && DecodeEntries(|es|, after) == Ok(es, rest)
    ensures DecodeEntries(|[e] + es|, [StrT(e.key)] + ts) == Ok([e] + es, rest)
  {
    assert ([StrT(e.key)] + ts)[1..] == ts;
  }

  lemma EntriesStep(e: Entry, es: seq<Entry>, rest: seq<Token>)
    ensures EncodeEntries([e] + es) + rest == [StrT(e.key)] + (Encode(e.value) + (EncodeEntries(es) + rest))
  {
    assert ([e] + es)[1..] == es;
  }

  lemma {:induction false} RoundTripEntries(entries: seq<Entry>, rest: seq<Token>)
    ensures DecodeEntries(|entries|, EncodeEntries(entries) + rest) == Ok(entries, rest)
    decreases entries
  {
    if entries == [] {
      assert EncodeEntries(entries) + rest == rest;
    } else {
      var e, es := entries[0], entries[1..];
      var after := EncodeEntries(es) + rest;
      RoundTrip(e.value, after);
      RoundTripEntries(es, rest);
      DecodeEntriesStep(e, es, Encode(e.value) + after, after, rest);
      EntriesStep(e, es, rest);
      assert entries == [e] + es;
    }
  }

  // ---------- encodings of concatenations ----------

  lemma {:induction false} EncodeAllJoin(a: seq<Value>, b: seq<Value>)
    ensures EncodeAll(a + b) == EncodeAll(a) + EncodeAll(b)
  {
    if a == [] {
      assert a + b == b;
    } else {
      assert (a + b)[1..] == a[1..] + b;
      EncodeAllJoin(a[1..], b);
    }
  }

  lemma {:induction false} EncodeEntriesJoin(a: seq<Entry>, b: seq<Entry>)
    ensures EncodeEntries(a + b) == EncodeEntries(a) + EncodeEntries(b)
  {
    if a == [] {
      assert a + b == b;
    } else {
      assert (a + b)[1..] == a[1..] + b;
      EncodeEntriesJoin(a[1..], b);
    }
  }

  // ---------- what fits in the format ----------

  const MAX_LENGTH: nat := 0xFFFF_FFFF

  /** The format has lengths of 32 bits and numbers of 64. */
  predicate TokenFits(t: Token) {
    match t
    case IntT(n) => -0x8000_0000_0000_0000 <= n <= 0xFFFF_FFFF_FFFF_FFFF
    case StrT(s) => |s| <= MAX_LENGTH
    case BinT(size) => size <= MAX_LENGTH
    case ArrayT(size) => size <= MAX_LENGTH
    case MapT(size) => size <= MAX_LENGTH
    case _ => true
  }

  predicate AllFit(ts: seq<Token>) {
    forall t :: t in ts ==> TokenFits(t)
  }

  lemma AllFitJoin(a: seq<Token>, b: seq<Token>)
    ensures AllFit(a + b) <==> AllFit(a) && AllFit(b)
  {
    if AllFit(a + b) {
      forall t | t in a || t in b ensures TokenFits(t) { assert t in a + b; }
    }
  }

  predicate EntryFits(e: Entry) {
    |e.key| <= MAX_LENGTH && AllFit(Encode(e.value))
  }

  lemma {:induction false} ItemsFit(items: seq<Value>)
    ensures AllFit(EncodeAll(items)) <==> forall i :: 0 <= i < |items| ==> AllFit(Encode(items[i]))
  {
    if items != [] {
      AllFitJoin(Encode(items[0]), EncodeAll(items[1..]));
      ItemsFit(items[1..]);
      assert forall i :: 0 < i < |items| ==> items[i] == items[1..][i - 1];
    }
  }

  lemma {:induction false} EntriesFit(entries: seq<Entry>)
    ensures AllFit(EncodeEntries(entries)) <==> forall i :: 0 <= i < |entries| ==> EntryFits(entries[i])
  {
    if entries != [] {
      AllFitJoin([StrT(entries[0].key)] + Encode(entries[0].value), EncodeEntries(entries[1..]));
      AllFitJoin([StrT(entries[0].key)], Encode(entries[0].value));
      assert AllFit([StrT(entries[0].key)]) <==> TokenFits(StrT(entries[0].key));
      EntriesFit(entries[1..]);
      assert forall i :: 0 < i < |entries| ==> entries[i] == entries[1..][i - 1];
    }
  }

  lemma ValueFits(v: Value)
    ensures v.Int? ==> (AllFit(Encode(v)) <==> TokenFits(IntT(v.n)))
    ensures v.Bin? ==> (AllFit(Encode(v)) <==> |v.bytes| <= MAX_LENGTH)
    ensures v.Array? ==> (AllFit(Encode(v)) <==> |v.items| <= MAX_LENGTH && AllFit(EncodeAll(v.items)))
    ensures v.Map? ==> (AllFit(Encode(v)) <==> |v.entries| <= MAX_LENGTH && AllFit(EncodeEntries(v.entries)))
  {
    match v
    case Bin(bytes) => {
      AllFitJoin([BinT(|bytes|)], ByteTokens(bytes));
      assert AllFit(ByteTokens(bytes));
      assert AllFit([BinT(|bytes|)]) <==> TokenFits(BinT(|bytes|));
    }
    case Array(items) => {
      AllFitJoin([ArrayT(|items|)], EncodeAll(items));
      assert AllFit([ArrayT(|items|)]) <==> TokenFits(ArrayT(|items|));
    }
    case Map(entries) => {
      AllFitJoin([MapT(|entries|)], EncodeEntries(entries));
      assert AllFit([MapT(|entries|)]) <==> TokenFits(MapT(|entries|));
    }
    case Int(n) => { assert AllFit([IntT(n)]) <==> TokenFits(IntT(n)); }
    case _ => {}
  }
}
