/**
  The flattened device tree writer and its checker (sim/tools/gen_dtb.py), and an independent
  reader of the format (Devicetree Specification v0.4, sections 5.2 to 5.5).  Names are given as
  their ASCII bytes.
 */
module DeviceTree {
  import opened Wrappers

  newtype byte = x: int | 0 <= x < 256

  type Bytes = seq<byte>

  const MAGIC: nat := 0xd00d_feed
  const BEGIN_NODE: nat := 1
  const END_NODE: nat := 2
  const PROP: nat := 3
  const END: nat := 9
  const LIMIT: nat := 0x1_0000_0000

  // ---- words and padding ----

  function U32(v: nat): (s: Bytes)
    ensures |s| == 4
  {
    [(v / 0x100_0000 % 256) as byte, (v / 0x1_0000 % 256) as byte, (v / 0x100 % 256) as byte, (v % 256) as byte]
  }

  /** The big-endian word at the start of `s`. */
  function Word(s: Bytes): (v: nat)
    requires |s| >= 4
    ensures v < LIMIT
  {
    ((s[0] as int * 256 + s[1] as int) * 256 + s[2] as int) * 256 + s[3] as int
  }

  lemma WordOfU32(v: nat, s: Bytes)
    requires v < LIMIT
    ensures Word(U32(v) + s) == v && (U32(v) + s)[4..] == s
  {
    var a, b, c := v / 0x100, v / 0x1_0000, v / 0x100_0000;
    assert v == a * 256 + v % 256 && a == b * 256 + a % 256 && b == c * 256 + b % 256;
    assert c < 256;
  }

  function Padded(n: nat): nat {
    (n + 3) / 4 * 4
  }

  function Zeros(n: nat): (s: Bytes)
    ensures |s| == n && forall k :: 0 <= k < n ==> s[k] == 0
  {
    seq(n, _ => 0)
  }

  /** _align4. */
  function Align4(s: Bytes): (r: Bytes)
    ensures |r| == Padded(|s|) && |s| <= |r| && r[..|s|] == s
  {
    s + Zeros((4 - |s| % 4) % 4)
  }

  // ---- the builder ----

  /** The property names and where each starts. */
  datatype Table = Table(strings: Bytes, offsets: map<Bytes, nat>)

  datatype Builder = Builder(body: Bytes, table: Table)

  datatype Event = Begin(name: Bytes) | Prop(name: Bytes, value: Bytes) | End

  /** _string_off: a name not seen before is appended with its NUL. */
  function Intern(t: Table, name: Bytes): (u: Table)
    ensures name in u.offsets
  {
    if name in t.offsets then t else Table(t.strings + name + [0], t.offsets[name := |t.strings|])
  }

  function InternEvent(t: Table, e: Event): Table {
    if e.Prop? then Intern(t, e.name) else t
  }

  /** The structure-block bytes of one call, made with the table `t`. */
  function EventBytes(t: Table, e: Event): Bytes {
    match e
    case Begin(name) => U32(BEGIN_NODE) + Align4(name + [0])
    case End => U32(END_NODE)
    case Prop(name, value) => U32(PROP) + U32(|value|) + U32(Intern(t, name).offsets[name]) + Align4(value)
  }

  /** begin_node, end_node and _prop_raw. */
  function Emit(b: Builder, e: Event): Builder {
    Builder(b.body + EventBytes(b.table, e), InternEvent(b.table, e))
  }

  function EmitAll(b: Builder, es: seq<Event>): Builder
    decreases |es|
  {
    if es == [] then b else EmitAll(Emit(b, es[0]), es[1..])
  }

  const EMPTY := Builder([], Table([], map[]))

  /** Packed words. */
  function Words(ws: seq<nat>): (s: Bytes)
    ensures |s| == 4 * |ws|
  {
    if ws == [] then [] else U32(ws[0]) + Words(ws[1..])
  }

  /** The ten header words: sizes, offsets and versions. */
  function HeaderWords(bodySize: nat, stringsSize: nat): (ws: seq<nat>)
    ensures |ws| == 10
  {
    [MAGIC, 56 + bodySize + stringsSize, 56, 56 + bodySize, 40, 17, 16, 0, stringsSize, bodySize]
  }

  /** build; None is the packing error of a header word that does not fit 32 bits. */
  function Build(b: Builder): Option<Bytes> {
    var body := b.body + U32(END);
    if 56 + |body| + |b.table.strings| >= LIMIT then None
    else Some(Words(HeaderWords(|body|, |b.table.strings|)) + Zeros(16) + body + b.table.strings)
  }

  class FdtBuilder {
    var body: Bytes
    var strings: Bytes
    var offsets: map<Bytes, nat>

    function Snapshot(): Builder
      reads this
    {
      Builder(body, Table(strings, offsets))
    }

    constructor ()
      ensures Snapshot() == EMPTY
    {
      body, strings, offsets := [], [], map[];
    }

    method StringOff(name: Bytes) returns (off: nat)
      modifies this`strings, this`offsets
      ensures Snapshot() == old(Snapshot()).(table := Intern(old(Snapshot()).table, name))
      ensures off == Intern(old(Snapshot()).table, name).offsets[name]
    {
      if name !in offsets {
        offsets := offsets[name := |strings|];
        strings := strings + name + [0];
      }
      off := offsets[name];
    }

    method BeginNode(name: Bytes)
      modifies this`body
      ensures Snapshot() == Emit(old(Snapshot()), Begin(name))
    {
      body := body + U32(BEGIN_NODE);
      body := body + Align4(name + [0]);
      assert body == old(body) + EventBytes(old(Snapshot()).table, Begin(name));
    }

    method EndNode()
      modifies this`body
      ensures Snapshot() == Emit(old(Snapshot()), End)
    {
      body := body + U32(END_NODE);
    }

    /** _prop_raw; false is the packing error, which leaves the token behind. */
    method PropRaw(name: Bytes, value: Bytes) returns (ok: bool)
      modifies this
      ensures ok == (|value| < LIMIT && Intern(old(Snapshot()).table, name).offsets[name] < LIMIT)
      ensures ok ==> Snapshot() == Emit(old(Snapshot()), Prop(name, value))
      ensures !ok ==> Snapshot() == Builder(old(body) + U32(PROP), Intern(old(Snapshot()).table, name))
    {
      hide Intern, Align4, U32;
      var off := StringOff(name);
      body := body + U32(PROP);
      if |value| >= LIMIT || off >= LIMIT {
        return false;
      }
      body := body + (U32(|value|) + U32(off));
      body := body + Align4(value);
      assert body == old(body) + EventBytes(old(Snapshot()).table, Prop(name, value));
      return true;
    }

    method BuildBlob() returns (r: Option<Bytes>)
      modifies this`body
      ensures r == Build(old(Snapshot()))
      ensures Snapshot() == old(Snapshot()).(body := old(body) + U32(END))
    {
      hide Words, HeaderWords, U32;
      body := body + U32(END);
      var total := 56 + |body| + |strings|;
      if total >= LIMIT {
        return None;
      }
      return Some(Words(HeaderWords(|body|, |strings|)) + Zeros(16) + body + strings);
    }
  }

  // ---- an independent reader ----

  /** The bytes before the first NUL. */
  function CString(s: Bytes): Option<Bytes> {
    if s == [] then None
    else if s[0] == 0 then Some([])
    else
      var r := CString(s[1..]);
      if r.Some? then Some([s[0]] + r.value) else None
  }

  function Cons(e: Event, r: Option<seq<Event>>): Option<seq<Event>> {
    if r.Some? then Some([e] + r.value) else None
  }

  /** The calls a structure block records, up to its end token. */
  function Decode(s: Bytes, strings: Bytes): Option<seq<Event>> {
    if |s| < 4 then None
    else if Word(s) == 9 then Some([])
    else if Word(s) == 2 then Cons(End, Decode(s[4..], strings))
    else if Word(s) == 1 then
      var name := CString(s[4..]);
      if name.None? || |s| < 4 + Padded(|name.value| + 1) then None
      else Cons(Begin(name.value), Decode(s[4 + Padded(|name.value| + 1)..], strings))
    else if Word(s) == 3 && |s| >= 12 then
      var n, off := Word(s[4..]), Word(s[8..]);
      if |s| < 12 + Padded(n) || off >= |strings| || CString(strings[off..]).None? then None
      else Cons(Prop(CString(strings[off..]).value, s[12..12 + n]), Decode(s[12 + Padded(n)..], strings))
    else None
  }

  /** Header word `k`. */
  function HeaderWord(blob: Bytes, k: nat): nat
    requires 4 * k + 4 <= |blob|
  {
    Word(blob[4 * k..])
  }

  /** The fixed header of section 5.2, byte for byte and word for word, and the reservation block it points to. */
  predicate HeaderConforms(blob: Bytes) {
    |blob| >= 40 && blob[0] == 0xd0 && blob[1] == 0x0d && blob[2] == 0xfe && blob[3] == 0xed &&
    HeaderWord(blob, 1) == |blob| && HeaderWord(blob, 5) == 17 && HeaderWord(blob, 6) == 16 && HeaderWord(blob, 7) == 0 &&
    HeaderWord(blob, 2) % 4 == 0 &&
    var at := HeaderWord(blob, 4);
    at % 8 == 0 && at >= 40 && at + 16 <= HeaderWord(blob, 2) && at + 16 <= |blob| &&
    forall k :: at <= k < at + 16 ==> blob[k] == 0
  }

  /** Read a whole blob through its header's offsets and sizes. */
  function ReadBlob(blob: Bytes): Option<seq<Event>> {
    if !HeaderConforms(blob) then None
    else
      var at, to, n, m := HeaderWord(blob, 2), HeaderWord(blob, 3), HeaderWord(blob, 9), HeaderWord(blob, 8);
      if at + n > |blob| || to + m > |blob| then None
      else Decode(blob[at..at + n], blob[to..to + m])
  }

  // ---- the string table ----

  predicate NulFree(s: Bytes) {
    forall k :: 0 <= k < |s| ==> s[k] != 0
  }

  /** `name` and its NUL stand at `off`. */
  predicate StoredAt(strings: Bytes, off: nat, name: Bytes) {
    off + |name| < |strings| && strings[off..off + |name|] == name && strings[off + |name|] == 0
  }

  predicate TableOk(t: Table) {
    forall name :: name in t.offsets ==> StoredAt(t.strings, t.offsets[name], name)
  }

  predicate Prefix(s: Bytes, t: Bytes) {
    |s| <= |t| && t[..|s|] == s
  }

  lemma StoredStays(s: Bytes, t: Bytes, off: nat, name: Bytes)
    requires Prefix(s, t) && StoredAt(s, off, name)
    ensures StoredAt(t, off, name)
  {
    assert t[off..off + |name|] == s[off..off + |name|];
    assert t[off + |name|] == s[off + |name|];
  }

  lemma StoredLast(s: Bytes, name: Bytes)
    ensures StoredAt(s + name + [0], |s|, name)
  {
  }

  /** Interning keeps every earlier name where it was. */
  lemma InternKeeps(t: Table, name: Bytes)
    requires TableOk(t)
    ensures TableOk(Intern(t, name)) && Prefix(t.strings, Intern(t, name).strings)
    ensures forall n :: n in t.offsets ==> n in Intern(t, name).offsets && Intern(t, name).offsets[n] == t.offsets[n]
  {
    hide StoredAt;
    var u := Intern(t, name);
    if name !in t.offsets {
      forall n | n in u.offsets
        ensures StoredAt(u.strings, u.offsets[n], n)
      {
        if n == name {
          StoredLast(t.strings, name);
        } else {
          StoredStays(t.strings, u.strings, t.offsets[n], n);
        }
      }
    }
  }

  lemma {:induction false} ReadsCString(name: Bytes, rest: Bytes)
    requires NulFree(name)
    ensures CString(name + [0] + rest) == Some(name)
    decreases |name|
  {
    var s := name + [0] + rest;
    if name == [] {
      assert s[0] == 0;
    } else {
      assert s[0] == name[0];
      assert s[1..] == name[1..] + [0] + rest;
      ReadsCString(name[1..], rest);
      assert [name[0]] + name[1..] == name;
    }
  }

  /** The name at a stored offset reads back. */
  lemma ReadsStored(strings: Bytes, off: nat, name: Bytes)
    requires StoredAt(strings, off, name) && NulFree(name)
    ensures CString(strings[off..]) == Some(name)
  {
    var rest := strings[off + |name| + 1..];
    assert strings[off..] == name + [0] + rest;
    ReadsCString(name, rest);
  }

  // ---- the round trip ----

  /** The structure-block bytes of a sequence of calls. */
  function Body(t: Table, es: seq<Event>): Bytes
    decreases |es|
  {
    if es == [] then [] else EventBytes(t, es[0]) + Body(InternEvent(t, es[0]), es[1..])
  }

  function FinalTable(t: Table, es: seq<Event>): Table
    decreases |es|
  {
    if es == [] then t else FinalTable(InternEvent(t, es[0]), es[1..])
  }

  lemma {:induction false} EmitAllIs(b: Builder, es: seq<Event>)
    ensures EmitAll(b, es) == Builder(b.body + Body(b.table, es), FinalTable(b.table, es))
    decreases |es|
  {
    if es == [] {
      assert b.body + [] == b.body;
    } else {
      var c := Emit(b, es[0]);
      hide EventBytes, InternEvent;
      EmitAllIs(c, es[1..]);
      Assoc(b.body, EventBytes(b.table, es[0]), Body(c.table, es[1..]));
    }
  }

  lemma Assoc(a: Bytes, b: Bytes, c: Bytes)
    ensures (a + b) + c == a + (b + c)
  {
  }

  lemma PrefixChain(s: Bytes, t: Bytes, u: Bytes)
    requires Prefix(s, t) && Prefix(t, u)
    ensures Prefix(s, u)
  {
    assert u[..|s|] == t[..|s|];
  }

  lemma {:induction false} FinalTableKeeps(t: Table, es: seq<Event>)
    requires TableOk(t)
    ensures TableOk(FinalTable(t, es)) && Prefix(t.strings, FinalTable(t, es).strings)
    decreases |es|
  {
    if es == [] {
    } else {
      var u := InternEvent(t, es[0]);
      if es[0].Prop? {
        InternKeeps(t, es[0].name);
      }
      FinalTableKeeps(u, es[1..]);
      PrefixChain(t.strings, u.strings, FinalTable(t, es).strings);
    }
  }

  /** NUL-free names; a value may hold any bytes. */
  predicate GoodName(e: Event) {
    e.End? || NulFree(e.name)
  }

  predicate ShortValue(e: Event) {
    e.Prop? ==> |e.value| < LIMIT
  }

  /** How a reader finds its way around an opened node. */
  lemma BeginLayout(name: Bytes, rest: Bytes)
    requires NulFree(name)
    ensures var s := U32(BEGIN_NODE) + Align4(name + [0]) + rest;
            |s| >= 4 + Padded(|name| + 1) && Word(s) == BEGIN_NODE && CString(s[4..]) == Some(name) &&
            s[4 + Padded(|name| + 1)..] == rest
  {
    var s := U32(BEGIN_NODE) + Align4(name + [0]) + rest;
    var pad := Align4(name + [0])[|name| + 1..];
    assert s == U32(BEGIN_NODE) + (Align4(name + [0]) + rest);
    WordOfU32(BEGIN_NODE, Align4(name + [0]) + rest);
    assert Align4(name + [0]) == name + [0] + pad;
    assert s[4..] == name + [0] + (pad + rest);
    ReadsCString(name, pad + rest);
  }

  /** And around a property. */
  lemma PropLayout(off: nat, value: Bytes, rest: Bytes)
    requires |value| < LIMIT && off < LIMIT
    ensures var s := U32(PROP) + U32(|value|) + U32(off) + Align4(value) + rest;
            |s| >= 12 + Padded(|value|) && Word(s) == PROP && Word(s[4..]) == |value| && Word(s[8..]) == off &&
            s[12..12 + |value|] == value && s[12 + Padded(|value|)..] == rest
  {
    var s := U32(PROP) + U32(|value|) + U32(off) + Align4(value) + rest;
    var s2 := Align4(value) + rest;
    var s1 := U32(off) + s2;
    assert s == U32(PROP) + (U32(|value|) + s1);
    WordOfU32(PROP, U32(|value|) + s1);
    WordOfU32(|value|, s1);
    WordOfU32(off, s2);
    hide U32, Word, Align4;
    assert s[4..] == U32(|value|) + s1 && s[8..] == s1 && s[12..] == s2;
    assert s2[..|value|] == value && s2[Padded(|value|)..] == rest;
    assert s[12..12 + |value|] == s2[..|value|];
    assert s[12 + Padded(|value|)..] == s2[Padded(|value|)..];
  }

  lemma DecodeBegin(name: Bytes, rest: Bytes, strings: Bytes)
    requires NulFree(name)
    ensures Decode(U32(BEGIN_NODE) + Align4(name + [0]) + rest, strings) == Cons(Begin(name), Decode(rest, strings))
  {
    hide U32, Word, Align4, CString, Padded;
    BeginLayout(name, rest);
  }

  lemma DecodeEnd(rest: Bytes, strings: Bytes)
    ensures Decode(U32(END_NODE) + rest, strings) == Cons(End, Decode(rest, strings))
  {
    WordOfU32(END_NODE, rest);
  }

  lemma DecodeProp(name: Bytes, off: nat, value: Bytes, rest: Bytes, strings: Bytes)
    requires NulFree(name) && |value| < LIMIT && off < LIMIT && StoredAt(strings, off, name)
    ensures Decode(U32(PROP) + U32(|value|) + U32(off) + Align4(value) + rest, strings)
         == Cons(Prop(name, value), Decode(rest, strings))
  {
    PropLayout(off, value, rest);
    ReadsStored(strings, off, name);
    hide U32, Word, Align4, CString, Padded;
  }

  /** One call reads back as itself, however the table grows afterwards. */
  lemma DecodeEvent(t: Table, e: Event, rest: Bytes, strings: Bytes)
    requires GoodName(e) && ShortValue(e) && TableOk(InternEvent(t, e))
    requires Prefix(InternEvent(t, e).strings, strings) && |strings| < LIMIT
    ensures Decode(EventBytes(t, e) + rest, strings) == Cons(e, Decode(rest, strings))
  {
    match e {
      case Begin(name) => DecodeBegin(name, rest, strings);
      case End => DecodeEnd(rest, strings);
      case Prop(name, value) =>
        var u := Intern(t, name);
        StoredStays(u.strings, strings, u.offsets[name], name);
        DecodeProp(name, u.offsets[name], value, rest, strings);
    }
  }

  lemma {:induction false} DecodeBody(t: Table, es: seq<Event>, strings: Bytes)
    requires TableOk(t) && Prefix(FinalTable(t, es).strings, strings) && |strings| < LIMIT
    requires forall k :: 0 <= k < |es| ==> GoodName(es[k]) && ShortValue(es[k])
    ensures Decode(Body(t, es) + U32(END), strings) == Some(es)
    decreases |es|
  {
    if es == [] {
      assert [] + U32(END) == U32(END) + [];
      WordOfU32(END, []);
    } else {
      var u := InternEvent(t, es[0]);
      if es[0].Prop? {
        InternKeeps(t, es[0].name);
      }
      FinalTableKeeps(u, es[1..]);
      PrefixChain(u.strings, FinalTable(u, es[1..]).strings, strings);
      hide EventBytes, InternEvent, TableOk, Prefix, GoodName, ShortValue, Decode, U32;
      DecodeBody(u, es[1..], strings);
      DecodeEvent(t, es[0], Body(u, es[1..]) + U32(END), strings);
      Assoc(EventBytes(t, es[0]), Body(u, es[1..]), U32(END));
      assert [es[0]] + es[1..] == es;
    }
  }

  /** Every value lies within the body. */
  lemma {:induction false} BodyCovers(t: Table, es: seq<Event>, k: nat)
    requires k < |es| && es[k].Prop?
    ensures |es[k].value| <= |Body(t, es)|
    decreases |es|
  {
    if k > 0 {
      BodyCovers(InternEvent(t, es[0]), es[1..], k - 1);
    }
  }

  lemma {:induction false} WordsAt(ws: seq<nat>, rest: Bytes, k: nat)
    requires k < |ws| && forall j :: 0 <= j < |ws| ==> ws[j] < LIMIT
    ensures Word((Words(ws) + rest)[4 * k..]) == ws[k]
    decreases k
  {
    var s := Words(ws) + rest;
    assert s == U32(ws[0]) + (Words(ws[1..]) + rest);
    WordOfU32(ws[0], Words(ws[1..]) + rest);
    if k == 0 {
      assert s[0..] == s;
    } else {
      WordsAt(ws[1..], rest, k - 1);
      assert s[4 * k..] == s[4..][4 * (k - 1)..];
    }
  }

  /** The header of a built blob, and its two blocks. */
  lemma BlobParts(b: Builder)
    requires Build(b).Some?
    ensures var blob, n, m := Build(b).value, |b.body| + 4, |b.table.strings|;
            |blob| == 56 + n + m < LIMIT && blob[56..56 + n] == b.body + U32(END) && blob[56 + n..56 + n + m] == b.table.strings &&
            blob[40..56] == Zeros(16)
    ensures forall k :: 0 <= k < 10 ==>
      HeaderWord(Build(b).value, k) == HeaderWords(|b.body| + 4, |b.table.strings|)[k]
  {
    var blob, n, m := Build(b).value, |b.body| + 4, |b.table.strings|;
    var ws := HeaderWords(n, m);
    var rest := Zeros(16) + (b.body + U32(END)) + b.table.strings;
    assert blob == Words(ws) + rest;
    assert blob[56..] == (b.body + U32(END)) + b.table.strings;
    forall k | 0 <= k < 10
      ensures HeaderWord(blob, k) == ws[k]
    {
      WordsAt(ws, rest, k);
    }
  }

  /** The calls made on a fresh builder, as bytes. */
  function Blob(es: seq<Event>): Option<Bytes> {
    Build(EmitAll(EMPTY, es))
  }

  /**
    The round trip: whenever the blob can be built, reading it back gives exactly the calls, names
    through the shared string table included.
   */
  lemma RoundTrip(es: seq<Event>)
    requires forall k :: 0 <= k < |es| ==> GoodName(es[k])
    ensures Blob(es).Some? ==> ReadBlob(Blob(es).value) == Some(es)
  {
    if Blob(es).Some? {
      var b := EmitAll(EMPTY, es);
      ReadsParts(b);
      BlobBlocks(es);
      hide Build, EmitAll, Decode, GoodName, Body, ReadBlob;
      DecodeBody(EMPTY.table, es, b.table.strings);
    }
  }

  /** The header leads the reader to the two blocks. */
  lemma ReadsParts(b: Builder)
    requires Build(b).Some?
    ensures ReadBlob(Build(b).value) == Decode(b.body + U32(END), b.table.strings)
  {
    hide Build, Decode, HeaderWord, Zeros, U32;
    var blob, n, m := Build(b).value, |b.body| + 4, |b.table.strings|;
    BlobParts(b);
    BuiltConforms(b);
    var ws := HeaderWords(n, m);
    assert HeaderWord(blob, 2) == ws[2] && HeaderWord(blob, 3) == ws[3];
    assert HeaderWord(blob, 8) == ws[8] && HeaderWord(blob, 9) == ws[9];
    hide HeaderConforms;
  }

  /** A built blob has the header the standard fixes. */
  lemma BuiltConforms(b: Builder)
    requires Build(b).Some?
    ensures HeaderConforms(Build(b).value)
  {
    BlobParts(b);
    MagicBytes(b);
    hide Build, HeaderWord, U32, Zeros;
    var blob, n, m := Build(b).value, |b.body| + 4, |b.table.strings|;
    var ws := HeaderWords(n, m);
    assert HeaderWord(blob, 1) == ws[1] && HeaderWord(blob, 2) == ws[2] && HeaderWord(blob, 4) == ws[4];
    assert HeaderWord(blob, 5) == ws[5] && HeaderWord(blob, 6) == ws[6] && HeaderWord(blob, 7) == ws[7];
    forall k | 40 <= k < 56
      ensures blob[k] == 0
    {
      assert blob[40..56][k - 40] == blob[k];
    }
  }

  lemma MagicBytes(b: Builder)
    requires Build(b).Some?
    ensures var blob := Build(b).value; |blob| >= 4 && blob[0] == 0xd0 && blob[1] == 0x0d && blob[2] == 0xfe && blob[3] == 0xed
  {
    var ws := HeaderWords(|b.body| + 4, |b.table.strings|);
    assert Words(ws) == U32(ws[0]) + Words(ws[1..]);
    hide Words;
  }

  /** The blocks of a fresh builder's blob. */
  lemma BlobBlocks(es: seq<Event>)
    requires Blob(es).Some?
    ensures var b := EmitAll(EMPTY, es);
            b.body == Body(EMPTY.table, es) && b.table == FinalTable(EMPTY.table, es) &&
            |b.table.strings| < LIMIT && Prefix(b.table.strings, b.table.strings)
    ensures forall k :: 0 <= k < |es| ==> ShortValue(es[k])
  {
    EmitAllIs(EMPTY, es);
    assert [] + Body(EMPTY.table, es) == Body(EMPTY.table, es);
    forall k | 0 <= k < |es|
      ensures ShortValue(es[k])
    {
      if es[k].Prop? {
        BodyCovers(EMPTY.table, es, k);
      }
    }
    hide EmitAll, Body, U32, Words, HeaderWords;
    var strings := EmitAll(EMPTY, es).table.strings;
    assert strings[..|strings|] == strings;
  }

  // ---- the checker ----

  datatype Report = Report(maxDepth: nat, propCount: nat, totalSize: nat)

  datatype Scan = Scan(depth: nat, maxDepth: nat, props: nat)

  /** The checker's pass over the structure block; None is any of its errors. */
  function ScanBody(s: Bytes, stringsSize: nat, c: Scan): Option<Scan>
    decreases |s|
  {
    if |s| < 4 then None
    else if Word(s) == BEGIN_NODE then
      var name := CString(s[4..]);
      if name.None? then None
      else
        var d := c.depth + 1;
        ScanBody(Drop(s, 4 + Padded(|name.value| + 1)), stringsSize,
                 Scan(d, if d > c.maxDepth then d else c.maxDepth, c.props))
    else if Word(s) == END_NODE then
      if c.depth == 0 then None else ScanBody(s[4..], stringsSize, c.(depth := c.depth - 1))
    else if Word(s) == PROP then
      if |s| < 12 || Word(s[8..]) >= stringsSize then None
      else ScanBody(Drop(s, 12 + Padded(Word(s[4..]))), stringsSize, c.(props := c.props + 1))
    else if Word(s) == END then Some(c)
    else None
  }

  /** A slice from `n`, empty when `n` is past the end. */
  function Drop(s: Bytes, n: nat): (r: Bytes)
    ensures n > 0 && s != [] ==> |r| < |s|
  {
    if n <= |s| then s[n..] else []
  }

  function HeaderOk(blob: Bytes): bool
    requires |blob| >= 40
  {
    var at, to, n, m := HeaderWord(blob, 2), HeaderWord(blob, 3), HeaderWord(blob, 9), HeaderWord(blob, 8);
    HeaderWord(blob, 0) == MAGIC && HeaderWord(blob, 1) == |blob| && HeaderWord(blob, 4) == 40 && at == 56 &&
    to == at + n && to + m == |blob|
  }

  /** parse_and_validate; None is an assertion or unpacking error. */
  function Validate(blob: Bytes): Option<Report> {
    if |blob| < 40 || !HeaderOk(blob) || |blob| < 56 || blob[40..56] != Zeros(16) then None
    else
      var n, m := HeaderWord(blob, 9), HeaderWord(blob, 8);
      var c := ScanBody(blob[56..56 + n], m, Scan(0, 0, 0));
      if c.None? || c.value.depth != 0 || c.value.maxDepth < 2 || c.value.props == 0 then None
      else Some(Report(c.value.maxDepth, c.value.props, |blob|))
  }

  method FindNul(s: Bytes, from: nat) returns (end: Option<nat>)
    requires from <= |s|
    ensures CString(s[from..]).None? <==> end.None?
    ensures end.Some? ==> from <= end.value < |s| && |CString(s[from..]).value| == end.value - from
  {
    var k := from;
    while k < |s| && s[k] != 0
      invariant from <= k <= |s|
      invariant CString(s[from..]).None? <==> CString(s[k..]).None?
      invariant CString(s[k..]).Some? ==> |CString(s[from..]).value| == k - from + |CString(s[k..]).value|
    {
      assert s[k..][1..] == s[k + 1..];
      k := k + 1;
    }
    end := if k < |s| then Some(k) else None;
  }

  /** Past a node name and its padding. */
  method SkipName(body: Bytes, i: nat) returns (next: Option<nat>)
    requires i <= |body|
    ensures next.None? <==> CString(body[i..]).None?
    ensures next.Some? ==> next.value == i + Padded(|CString(body[i..]).value| + 1) > i
  {
    var end := FindNul(body, i);
    next := if end.None? then None else Some(i + Padded(end.value - i + 1));
  }

  /** Past a property's length, name offset, value and padding. */
  method SkipProp(body: Bytes, i: nat, stringsSize: nat) returns (next: Option<nat>)
    requires i <= |body|
    ensures next.None? <==> |body| < i + 8 || Word(body[i + 4..]) >= stringsSize
    ensures next.Some? ==> next.value == i + 8 + Padded(Word(body[i..]))
  {
    if |body| < i + 8 {
      return None;
    }
    var plen, nameoff := Word(body[i..]), Word(body[i + 4..]);
    return if nameoff >= stringsSize then None else Some(i + 8 + Padded(plen));
  }

  /** The checker's cursor loop. */
  method ScanLoop(body: Bytes, stringsSize: nat) returns (r: Option<Scan>)
    ensures r == ScanBody(body, stringsSize, Scan(0, 0, 0))
  {
    hide Word, CString, Padded, ScanBody;
    var depth, maxDepth, props, i := 0, 0, 0, 0;
    assert Drop(body, 0) == body;
    while i < |body|
      invariant ScanBody(Drop(body, i), stringsSize, Scan(depth, maxDepth, props))
             == ScanBody(body, stringsSize, Scan(0, 0, 0))
      decreases |body| - i
    {
      ghost var s := Drop(body, i);
      ScanToken(s, stringsSize, Scan(depth, maxDepth, props));
      if |body| < i + 4 {
        return None;
      }
      var tok := Word(body[i..]);
      if tok == BEGIN_NODE {
        assert s[4..] == body[i + 4..];
        depth := depth + 1;
        maxDepth := if depth > maxDepth then depth else maxDepth;
        var next := SkipName(body, i + 4);
        if next.None? {
          return None;
        }
        DropDrop(body, i, next.value - i);
        i := next.value;
      } else if tok == END_NODE {
        if depth == 0 {
          return None;
        }
        depth := depth - 1;
        DropDrop(body, i, 4);
        i := i + 4;
      } else if tok == PROP {
        props := props + 1;
        assert |s| >= 12 ==> s[4..] == body[i + 4..] && s[8..] == body[i + 8..];
        var next := SkipProp(body, i + 4, stringsSize);
        if next.None? {
          return None;
        }
        DropDrop(body, i, next.value - i);
        i := next.value;
      } else {
        return if tok == END then Some(Scan(depth, maxDepth, props)) else None;
      }
    }
    ScanToken([], stringsSize, Scan(depth, maxDepth, props));
    return None;
  }

  /** One token of the pass. */
  lemma ScanToken(s: Bytes, stringsSize: nat, c: Scan)
    ensures ScanBody(s, stringsSize, c) ==
              if |s| < 4 then None
              else if Word(s) == BEGIN_NODE then
                if CString(s[4..]).None? then None
                else ScanBody(Drop(s, 4 + Padded(|CString(s[4..]).value| + 1)), stringsSize,
                              Scan(c.depth + 1, if c.depth + 1 > c.maxDepth then c.depth + 1 else c.maxDepth, c.props))
              else if Word(s) == END_NODE then
                if c.depth == 0 then None else ScanBody(Drop(s, 4), stringsSize, c.(depth := c.depth - 1))
              else if Word(s) == PROP then
                if |s| < 12 || Word(s[8..]) >= stringsSize then None
                else ScanBody(Drop(s, 12 + Padded(Word(s[4..]))), stringsSize, c.(props := c.props + 1))
              else if Word(s) == END then Some(c) else None
  {
    hide Word, CString, Padded;
  }

  lemma DropDrop(s: Bytes, i: nat, n: nat)
    requires i <= |s|
    ensures Drop(Drop(s, i), n) == Drop(s, i + n)
  {
  }

  method ParseAndValidate(blob: Bytes) returns (r: Option<Report>)
    ensures r == Validate(blob)
  {
    hide ScanBody, HeaderOk;
    if |blob| < 40 || !HeaderOk(blob) || |blob| < 56 || blob[40..56] != Zeros(16) {
      return None;
    }
    var n, m := HeaderWord(blob, 9), HeaderWord(blob, 8);
    assert 56 + n <= |blob| by { HeaderFits(blob); }
    var c := ScanLoop(blob[56..56 + n], m);
    if c.None? || c.value.depth != 0 || c.value.maxDepth < 2 || c.value.props == 0 {
      return None;
    }
    return Some(Report(c.value.maxDepth, c.value.props, |blob|));
  }

  lemma HeaderFits(blob: Bytes)
    requires |blob| >= 40 && HeaderOk(blob)
    ensures 56 + HeaderWord(blob, 9) <= |blob|
  {
  }

  // ---- what the checker accepts ----

  /** Nodes opened minus nodes closed. */
  function Height(es: seq<Event>): int {
    if es == [] then 0
    else Height(es[..|es| - 1]) + (match es[|es| - 1] case Begin(_) => 1 case End => -1 case Prop(_, _) => 0)
  }

  /** The deepest point of a sequence of calls. */
  function MaxHeight(es: seq<Event>): int {
    if es == [] then 0 else
      var m := MaxHeight(es[..|es| - 1]);
      if Height(es) > m then Height(es) else m
  }

  function PropCount(es: seq<Event>): nat {
    if es == [] then 0 else PropCount(es[..|es| - 1]) + (if es[|es| - 1].Prop? then 1 else 0)
  }

  /** No node is closed before it is opened. */
  ghost predicate NeverNegative(es: seq<Event>) {
    forall k :: 0 <= k <= |es| ==> Height(es[..k]) >= 0
  }

  /** And all are closed at the end. */
  ghost predicate WellNested(es: seq<Event>) {
    NeverNegative(es) && Height(es) == 0
  }

  /** The checker's counters over one call instead of its bytes. */
  function TrackStep(e: Event, c: Scan): Option<Scan> {
    match e
    case Begin(_) => Some(Scan(c.depth + 1, if c.depth + 1 > c.maxDepth then c.depth + 1 else c.maxDepth, c.props))
    case End => if c.depth == 0 then None else Some(c.(depth := c.depth - 1))
    case Prop(_, _) => Some(c.(props := c.props + 1))
  }

  function Track(es: seq<Event>, c: Scan): Option<Scan>
    decreases |es|
  {
    if es == [] then Some(c)
    else
      var d := TrackStep(es[0], c);
      if d.None? then None else Track(es[1..], d.value)
  }

  lemma ScanBegin(name: Bytes, rest: Bytes, m: nat, c: Scan)
    requires NulFree(name)
    ensures ScanBody(U32(BEGIN_NODE) + Align4(name + [0]) + rest, m, c)
         == ScanBody(rest, m, Scan(c.depth + 1, if c.depth + 1 > c.maxDepth then c.depth + 1 else c.maxDepth, c.props))
  {
    hide U32, Word, Align4, CString, Padded, ScanBody;
    var s := U32(BEGIN_NODE) + Align4(name + [0]) + rest;
    BeginLayout(name, rest);
    ScanToken(s, m, c);
  }

  lemma ScanProp(off: nat, value: Bytes, rest: Bytes, m: nat, c: Scan)
    requires |value| < LIMIT && off < LIMIT && off < m
    ensures ScanBody(U32(PROP) + U32(|value|) + U32(off) + Align4(value) + rest, m, c)
         == ScanBody(rest, m, c.(props := c.props + 1))
  {
    hide U32, Word, Align4, CString, Padded, ScanBody;
    var s := U32(PROP) + U32(|value|) + U32(off) + Align4(value) + rest;
    PropLayout(off, value, rest);
    ScanToken(s, m, c);
  }

  lemma ScanEnd(rest: Bytes, m: nat, c: Scan)
    ensures ScanBody(U32(END_NODE) + rest, m, c)
         == if c.depth == 0 then None else ScanBody(rest, m, c.(depth := c.depth - 1))
  {
    WordOfU32(END_NODE, rest);
  }

  lemma ScanEvent(t: Table, e: Event, rest: Bytes, strings: Bytes, c: Scan)
    requires GoodName(e) && ShortValue(e) && TableOk(InternEvent(t, e))
    requires Prefix(InternEvent(t, e).strings, strings) && |strings| < LIMIT
    ensures ScanBody(EventBytes(t, e) + rest, |strings|, c)
         == if TrackStep(e, c).None? then None else ScanBody(rest, |strings|, TrackStep(e, c).value)
  {
    hide ScanBody, U32, Align4, StoredAt, NulFree;
    match e {
      case Begin(name) => ScanBegin(name, rest, |strings|, c);
      case End => ScanEnd(rest, |strings|, c);
      case Prop(name, value) =>
        var u := Intern(t, name);
        OffsetInside(u, strings, name);
        ScanProp(u.offsets[name], value, rest, |strings|, c);
    }
  }

  /** The checker's byte loop sees exactly the calls. */
  lemma {:induction false} ScanIsTrack(t: Table, es: seq<Event>, strings: Bytes, c: Scan)
    requires TableOk(t) && Prefix(FinalTable(t, es).strings, strings) && |strings| < LIMIT
    requires forall k :: 0 <= k < |es| ==> GoodName(es[k]) && ShortValue(es[k])
    ensures ScanBody(Body(t, es) + U32(END), |strings|, c) == Track(es, c)
    decreases |es|
  {
    if es == [] {
      assert [] + U32(END) == U32(END) + [];
      WordOfU32(END, []);
    } else {
      var u := InternEvent(t, es[0]);
      if es[0].Prop? {
        InternKeeps(t, es[0].name);
      }
      FinalTableKeeps(u, es[1..]);
      PrefixChain(u.strings, FinalTable(u, es[1..]).strings, strings);
      hide EventBytes, InternEvent, TableOk, Prefix, GoodName, ShortValue, ScanBody, U32, TrackStep;
      ScanEvent(t, es[0], Body(u, es[1..]) + U32(END), strings, c);
      if TrackStep(es[0], c).Some? {
        ScanIsTrack(u, es[1..], strings, TrackStep(es[0], c).value);
      }
      Assoc(EventBytes(t, es[0]), Body(u, es[1..]), U32(END));
    }
  }

  lemma {:induction false} TrackSnoc(es: seq<Event>, e: Event, c: Scan)
    ensures Track(es + [e], c) == if Track(es, c).None? then None else TrackStep(e, Track(es, c).value)
    decreases |es|
  {
    var s := es + [e];
    hide TrackStep;
    if es == [] {
      assert s[1..] == [];
    } else {
      assert s[0] == es[0] && s[1..] == es[1..] + [e];
      var d := TrackStep(es[0], c);
      if d.Some? {
        TrackSnoc(es[1..], e, d.value);
      }
    }
  }

  lemma NeverNegativeSnoc(es: seq<Event>)
    requires es != []
    ensures NeverNegative(es) <==> NeverNegative(es[..|es| - 1]) && Height(es) >= 0
  {
    hide Height;
    var n, init := |es|, es[..|es| - 1];
    assert es[..n] == es;
    assert forall k :: 0 <= k <= n - 1 ==> init[..k] == es[..k];
    if NeverNegative(init) && Height(es) >= 0 {
      forall k | 0 <= k <= n
        ensures Height(es[..k]) >= 0
      {
        assert k < n ==> init[..k] == es[..k];
      }
    }
  }

  /** The counters are the heights: tracking fails exactly where a prefix closes too much. */
  lemma {:induction false} TrackIsHeight(es: seq<Event>)
    ensures Track(es, Scan(0, 0, 0)).Some? <==> NeverNegative(es)
    ensures Track(es, Scan(0, 0, 0)).Some? ==>
      Height(es) >= 0 && MaxHeight(es) >= 0 && Track(es, Scan(0, 0, 0)).value == Scan(Height(es), MaxHeight(es), PropCount(es))
    decreases |es|
  {
    if es == [] {
      assert es[..0] == [];
    } else {
      hide NeverNegative;
      var init, last := es[..|es| - 1], es[|es| - 1];
      TrackIsHeight(init);
      TrackSnoc(init, last, Scan(0, 0, 0));
      assert init + [last] == es;
      NeverNegativeSnoc(es);
    }
  }

  /** Header and reservation block of a built blob pass the checker's tests. */
  lemma ValidateParts(b: Builder)
    requires Build(b).Some?
    ensures var c := ScanBody(b.body + U32(END), |b.table.strings|, Scan(0, 0, 0));
            Validate(Build(b).value) ==
              if c.None? || c.value.depth != 0 || c.value.maxDepth < 2 || c.value.props == 0 then None
              else Some(Report(c.value.maxDepth, c.value.props, |Build(b).value|))
  {
    var blob, n, m := Build(b).value, |b.body| + 4, |b.table.strings|;
    BlobParts(b);
    hide Build, ScanBody, HeaderWord;
    var ws := HeaderWords(n, m);
    assert HeaderWord(blob, 0) == ws[0] && HeaderWord(blob, 1) == ws[1] && HeaderWord(blob, 2) == ws[2];
    assert HeaderWord(blob, 3) == ws[3] && HeaderWord(blob, 4) == ws[4];
    assert HeaderWord(blob, 8) == ws[8] && HeaderWord(blob, 9) == ws[9];
  }

  /**
    The checker accepts a built blob exactly when the calls are well nested, at least two deep and
    set at least one property, and then reports their depth, property count and size.
   */
  lemma AcceptsExactly(es: seq<Event>)
    requires forall k :: 0 <= k < |es| ==> GoodName(es[k])
    requires Blob(es).Some?
    ensures Validate(Blob(es).value).Some? <==> WellNested(es) && MaxHeight(es) >= 2 && PropCount(es) > 0
    ensures Validate(Blob(es).value).Some? ==>
      Validate(Blob(es).value).value == Report(MaxHeight(es), PropCount(es), |Blob(es).value|)
  {
    var b := EmitAll(EMPTY, es);
    BlobBlocks(es);
    ValidateParts(b);
    hide Build, EmitAll, ScanBody, Validate, Body;
    ScanIsTrack(EMPTY.table, es, b.table.strings, Scan(0, 0, 0));
    TrackIsHeight(es);
    hide Height, MaxHeight, PropCount, Track, GoodName, ShortValue, Prefix;
  }

  lemma OffsetInside(u: Table, strings: Bytes, name: Bytes)
    requires TableOk(u) && name in u.offsets && Prefix(u.strings, strings)
    ensures u.offsets[name] < |strings|
  {
    assert StoredAt(u.strings, u.offsets[name], name);
  }

  // ---- what the checker accepts of any bytes ----

  function RoundedUp(n: nat): nat {
    if n % 4 == 0 then n else n + 4 - n % 4
  }

  lemma PaddedRounds(n: nat)
    ensures Padded(n) == RoundedUp(n)
  {
  }

  /**
    The tokens a structure block spells up to its end token, a property's contents left out; None when
    a token is unknown or cut off, a name has no NUL, or a property's name lies outside the strings.
   */
  function Tokens(s: Bytes, strings: nat): Option<seq<Event>>
    decreases |s|
  {
    if |s| < 4 || s[0] != 0 || s[1] != 0 || s[2] != 0 then None
    else if s[3] == 9 then Some([])
    else if s[3] == 2 then Cons(End, Tokens(Drop(s, 4), strings))
    else if s[3] == 1 then
      var name := CString(s[4..]);
      if name.None? then None
      else Cons(Begin(name.value), Tokens(Drop(s, 4 + RoundedUp(|name.value| + 1)), strings))
    else if s[3] == 3 && |s| >= 12 && Word(s[8..]) < strings then
      Cons(Prop([], []), Tokens(Drop(s, 12 + RoundedUp(Word(s[4..]))), strings))
    else None
  }

  lemma SmallWord(s: Bytes, v: byte)
    requires |s| >= 4
    ensures Word(s) == v as nat <==> s[0] == 0 && s[1] == 0 && s[2] == 0 && s[3] == v
  {
  }

  /** One token, read by the words the checker compares. */
  lemma TokensStep(s: Bytes, m: nat)
    ensures Tokens(s, m) ==
              if |s| < 4 then None
              else if Word(s) == BEGIN_NODE then
                if CString(s[4..]).None? then None
                else Cons(Begin(CString(s[4..]).value), Tokens(Drop(s, 4 + Padded(|CString(s[4..]).value| + 1)), m))
              else if Word(s) == END_NODE then Cons(End, Tokens(Drop(s, 4), m))
              else if Word(s) == PROP then
                if |s| < 12 || Word(s[8..]) >= m then None
                else Cons(Prop([], []), Tokens(Drop(s, 12 + Padded(Word(s[4..]))), m))
              else if Word(s) == END then Some([]) else None
  {
    hide Word, CString, Padded, RoundedUp;
    if |s| >= 4 {
      SmallWord(s, 1);
      SmallWord(s, 2);
      SmallWord(s, 3);
      SmallWord(s, 9);
      if CString(s[4..]).Some? {
        PaddedRounds(|CString(s[4..]).value| + 1);
      }
      if |s| >= 12 {
        PaddedRounds(Word(s[4..]));
      }
    }
  }

  lemma TrackCons(e: Event, r: Option<seq<Event>>, c: Scan)
    ensures Cons(e, r).Some? <==> r.Some?
    ensures r.Some? ==>
              Track(Cons(e, r).value, c)
                == if TrackStep(e, c).None? then None else Track(r.value, TrackStep(e, c).value)
  {
    if r.Some? {
      assert Cons(e, r).value[1..] == r.value;
    }
    hide TrackStep;
  }

  /** The checker's pass is the track of the tokens. */
  lemma {:induction false} ScansTokens(s: Bytes, m: nat, c: Scan)
    ensures ScanBody(s, m, c) == if Tokens(s, m).None? then None else Track(Tokens(s, m).value, c)
    decreases |s|
  {
    hide Word, CString, Padded, ScanBody, Tokens, Cons, Track, TrackStep;
    ScanToken(s, m, c);
    TokensStep(s, m);
    if |s| < 4 {
    } else if Word(s) == BEGIN_NODE {
      if CString(s[4..]).Some? {
        var rest, e := Drop(s, 4 + Padded(|CString(s[4..]).value| + 1)), Begin(CString(s[4..]).value);
        StepBegin(e, c);
        ScansTokens(rest, m, TrackStep(e, c).value);
        TrackCons(e, Tokens(rest, m), c);
      }
    } else if Word(s) == END_NODE {
      StepEnd(c);
      TrackCons(End, Tokens(Drop(s, 4), m), c);
      if c.depth > 0 {
        ScansTokens(Drop(s, 4), m, c.(depth := c.depth - 1));
      }
    } else if Word(s) == PROP {
      if |s| >= 12 && Word(s[8..]) < m {
        var rest, e := Drop(s, 12 + Padded(Word(s[4..]))), Prop([], []);
        StepProp(e, c);
        ScansTokens(rest, m, TrackStep(e, c).value);
        TrackCons(e, Tokens(rest, m), c);
      }
    } else if Word(s) == END {
      TrackNothing(c);
    }
  }

  lemma StepBegin(e: Event, c: Scan)
    requires e.Begin?
    ensures TrackStep(e, c) == Some(Scan(c.depth + 1, if c.depth + 1 > c.maxDepth then c.depth + 1 else c.maxDepth, c.props))
  {
  }

  lemma StepEnd(c: Scan)
    ensures TrackStep(End, c) == if c.depth == 0 then None else Some(c.(depth := c.depth - 1))
  {
  }

  lemma StepProp(e: Event, c: Scan)
    requires e.Prop?
    ensures TrackStep(e, c) == Some(c.(props := c.props + 1))
  {
  }

  lemma TrackNothing(c: Scan)
    ensures Track([], c) == Some(c)
  {
  }

  /** The header the checker asks for: it looks at no version. */
  predicate HeaderAccepted(blob: Bytes) {
    |blob| >= 56 && blob[0] == 0xd0 && blob[1] == 0x0d && blob[2] == 0xfe && blob[3] == 0xed &&
    HeaderWord(blob, 1) == |blob| && HeaderWord(blob, 4) == 40 && HeaderWord(blob, 2) == 56 &&
    HeaderWord(blob, 3) == 56 + HeaderWord(blob, 9) && HeaderWord(blob, 3) + HeaderWord(blob, 8) == |blob| &&
    forall k :: 40 <= k < 56 ==> blob[k] == 0
  }

  lemma MagicWord(blob: Bytes)
    requires |blob| >= 4
    ensures HeaderWord(blob, 0) == MAGIC <==> blob[0] == 0xd0 && blob[1] == 0x0d && blob[2] == 0xfe && blob[3] == 0xed
  {
  }

  lemma HeaderIs(blob: Bytes)
    ensures HeaderAccepted(blob) <==> |blob| >= 56 && HeaderOk(blob) && blob[40..56] == Zeros(16)
  {
    if |blob| >= 56 {
      MagicWord(blob);
      hide HeaderWord;
      SixteenZeros(blob);
    }
  }

  lemma SixteenZeros(blob: Bytes)
    requires |blob| >= 56
    ensures blob[40..56] == Zeros(16) <==> forall k :: 40 <= k < 56 ==> blob[k] == 0
  {
    var r := blob[40..56];
    if r == Zeros(16) {
      forall k | 40 <= k < 56
        ensures blob[k] == 0
      {
        assert r[k - 40] == blob[k];
      }
    }
  }

  /**
    For any bytes whatever: the checker accepts exactly a blob with that header whose structure block
    spells tokens that are well nested, at least two deep and set a property, and reports them.
   */
  lemma AcceptsAny(blob: Bytes)
    ensures Validate(blob).Some? <==>
              HeaderAccepted(blob) &&
              var t := Tokens(blob[56..56 + HeaderWord(blob, 9)], HeaderWord(blob, 8));
              t.Some? && WellNested(t.value) && MaxHeight(t.value) >= 2 && PropCount(t.value) > 0
    ensures Validate(blob).Some? ==>
              var es := Tokens(blob[56..56 + HeaderWord(blob, 9)], HeaderWord(blob, 8)).value;
              Validate(blob).value == Report(MaxHeight(es), PropCount(es), |blob|)
  {
    HeaderIs(blob);
    if HeaderAccepted(blob) {
      var s, m := blob[56..56 + HeaderWord(blob, 9)], HeaderWord(blob, 8);
      ScansTokens(s, m, Scan(0, 0, 0));
      if Tokens(s, m).Some? {
        TrackIsHeight(Tokens(s, m).value);
      }
      hide HeaderWord, HeaderOk, ScanBody, Tokens, Track, Height, MaxHeight, PropCount, NeverNegative;
    }
  }
}
