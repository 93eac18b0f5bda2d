/** The typed values of SFPacket: how they lie in memory, and when a list that was written reads
    back. */
module PacketValues {
  import opened Sequences
  import opened EncryptionXor

  datatype Value =
    | VByte(b: bv8) | VChar(c: bv8)
    | VShort(s: bv16) | VUShort(u: bv16)
    | VInt(i: bv32) | VDWord(d: bv32) | VFloat(bits: bv32)
    | VStr(text: seq<bv8>)
    | VBlock(block: seq<bv8>)

  /** What a reader says it wants. */
  datatype Kind = KByte | KChar | KShort | KUShort | KInt | KDWord | KFloat | KStr | KBlock(size: nat)

  function KindOf(v: Value): Kind {
    match v
    case VByte(_) => KByte
    case VChar(_) => KChar
    case VShort(_) => KShort
    case VUShort(_) => KUShort
    case VInt(_) => KInt
    case VDWord(_) => KDWord
    case VFloat(_) => KFloat
    case VStr(_) => KStr
    case VBlock(block) => KBlock(|block|)
  }

  function KindsOf(vs: seq<Value>): (ks: seq<Kind>)
    ensures |ks| == |vs|
  {
    if vs == [] then [] else [KindOf(vs[0])] + KindsOf(vs[1..])
  }

  /** A C string holds no NUL before its end. */
  predicate IsCString(v: Value) {
    v.VStr? ==> NulFree(v.text)
  }

  function LowHalf(w: bv16): bv8 {
    (w & 0xFF) as bv8
  }

  function HighHalf(w: bv16): bv8 {
    ((w >> 8) & 0xFF) as bv8
  }

  function Load16(b0: bv8, b1: bv8): bv16 {
    (b0 as bv16) | ((b1 as bv16) << 8)
  }

  /** Little-endian: the first byte is the lower. */
  lemma Load16IsLittleEndian(b0: bv8, b1: bv8)
    ensures Load16(b0, b1) == (b0 as bv16) + (b1 as bv16) * 0x100
  {
  }

  lemma StoreThenLoad16(w: bv16)
    ensures Load16(LowHalf(w), HighHalf(w)) == w
  {
  }

  lemma LoadThenStore16(b0: bv8, b1: bv8)
    ensures LowHalf(Load16(b0, b1)) == b0 && HighHalf(Load16(b0, b1)) == b1
  {
  }

  lemma LoadThenStore(b0: bv8, b1: bv8, b2: bv8, b3: bv8)
    ensures Byte0(Load(b0, b1, b2, b3)) == b0 && Byte1(Load(b0, b1, b2, b3)) == b1
    ensures Byte2(Load(b0, b1, b2, b3)) == b2 && Byte3(Load(b0, b1, b2, b3)) == b3
  {
  }

  function Bytes16(w: bv16): seq<bv8> {
    [LowHalf(w), HighHalf(w)]
  }

  function Bytes32(w: bv32): seq<bv8> {
    [Byte0(w), Byte1(w), Byte2(w), Byte3(w)]
  }

  /** The bytes of a value, a string with its NUL. */
  function BytesOf(v: Value): seq<bv8> {
    match v
    case VByte(b) => [b]
    case VChar(c) => [c]
    case VShort(s) => Bytes16(s)
    case VUShort(u) => Bytes16(u)
    case VInt(i) => Bytes32(i)
    case VDWord(d) => Bytes32(d)
    case VFloat(f) => Bytes32(f)
    case VStr(text) => text + [0]
    case VBlock(block) => block
  }

  /** The bytes of each value, read back: numbers little-endian, a text with one NUL behind it, a
      block as it is. */
  lemma BytesAreLittleEndian(v: Value)
    ensures var b := BytesOf(v);
            match v
            case VByte(x) => b == [x]
            case VChar(x) => b == [x]
            case VShort(x) => |b| == 2 && (b[0] as bv16) + (b[1] as bv16) * 0x100 == x
            case VUShort(x) => |b| == 2 && (b[0] as bv16) + (b[1] as bv16) * 0x100 == x
            case VInt(x) => |b| == 4 && Sum(b[0], b[1], b[2], b[3]) == x
            case VDWord(x) => |b| == 4 && Sum(b[0], b[1], b[2], b[3]) == x
            case VFloat(x) => |b| == 4 && Sum(b[0], b[1], b[2], b[3]) == x
            case VStr(text) => |b| == |text| + 1 && b[..|text|] == text && b[|text|] == 0
            case VBlock(block) => b == block
  {
    hide LowHalf, HighHalf, Load16, Load, Byte0, Byte1, Byte2, Byte3, Sum;
    if v.VShort? || v.VUShort? {
      var w := if v.VShort? then v.s else v.u;
      StoreThenLoad16(w);
      Load16IsLittleEndian(LowHalf(w), HighHalf(w));
    } else if v.VInt? || v.VDWord? || v.VFloat? {
      var w := if v.VInt? then v.i else if v.VDWord? then v.d else v.bits;
      StoreThenLoad(w);
      LoadIsSum(Byte0(w), Byte1(w), Byte2(w), Byte3(w));
    }
  }

  function Sum(b0: bv8, b1: bv8, b2: bv8, b3: bv8): bv32 {
    (b0 as bv32) + (b1 as bv32) * 0x100 + (b2 as bv32) * 0x1_0000 + (b3 as bv32) * 0x100_0000
  }

  lemma LoadIsSum(b0: bv8, b1: bv8, b2: bv8, b3: bv8)
    ensures Load(b0, b1, b2, b3) == Sum(b0, b1, b2, b3)
  {
    LoadIsLittleEndian(b0, b1, b2, b3);
  }

  /** What `<<` puts into the packet: an empty string is silently dropped. */
  function Written(v: Value): seq<bv8> {
    if v == VStr([]) then [] else BytesOf(v)
  }

  function WrittenAll(vs: seq<Value>): seq<bv8> {
    if vs == [] then [] else Written(vs[0]) + WrittenAll(vs[1..])
  }

  function BytesOfAll(vs: seq<Value>): seq<bv8> {
    if vs == [] then [] else BytesOf(vs[0]) + BytesOfAll(vs[1..])
  }

  // ---------- reading ----------

  function SizeOf(k: Kind): nat {
    match k
    case KByte => 1
    case KChar => 1
    case KShort => 2
    case KUShort => 2
    case KInt => 4
    case KDWord => 4
    case KFloat => 4
    case KStr => 1
    case KBlock(n) => n
  }

  /** What `>>` reads at a position, and the position after it; None leaves both alone. */
  function ReadAt(k: Kind, data: seq<bv8>, at: nat): Option<(Value, nat)>
    requires at <= |data|
  {
    if k == KStr then
      var n := StrLen(data, at);
      if at + n + 1 > |data| then None else Some((VStr(data[at..at + n]), at + n + 1))
    else if at + SizeOf(k) > |data| then None
    else
      var next := at + SizeOf(k);
      match k
      case KByte => Some((VByte(data[at]), next))
      case KChar => Some((VChar(data[at]), next))
      case KShort => Some((VShort(Load16(data[at], data[at + 1])), next))
      case KUShort => Some((VUShort(Load16(data[at], data[at + 1])), next))
      case KInt => Some((VInt(Load(data[at], data[at + 1], data[at + 2], data[at + 3])), next))
      case KDWord => Some((VDWord(Load(data[at], data[at + 1], data[at + 2], data[at + 3])), next))
      case KFloat => Some((VFloat(Load(data[at], data[at + 1], data[at + 2], data[at + 3])), next))
      case KBlock(n) => Some((VBlock(data[at..next]), next))
  }

  function ReadAll(ks: seq<Kind>, data: seq<bv8>, at: nat): Option<seq<Value>>
    requires at <= |data|
    decreases |ks|
  {
    if ks == [] then Some([])
    else match ReadAt(ks[0], data, at)
      case None => None
      case Some((v, next)) =>
        if next > |data| then None
        else match ReadAll(ks[1..], data, next)
          case None => None
          case Some(vs) => Some([v] + vs)
  }

  // ---------- a value reads back exactly where its bytes lie ----------

  lemma Slice1(data: seq<bv8>, at: nat)
    requires at + 1 <= |data|
    ensures data[at..at + 1] == [data[at]]
  {
  }

  lemma Slice2(data: seq<bv8>, at: nat)
    requires at + 2 <= |data|
    ensures data[at..at + 2] == [data[at], data[at + 1]]
  {
  }

  lemma Slice4(data: seq<bv8>, at: nat)
    requires at + 4 <= |data|
    ensures data[at..at + 4] == [data[at], data[at + 1], data[at + 2], data[at + 3]]
  {
  }

  lemma ReadsWord16(w: bv16, data: seq<bv8>, at: nat)
    requires at + 2 <= |data|
    ensures Load16(data[at], data[at + 1]) == w <==> data[at..at + 2] == Bytes16(w)
  {
    hide Load16, LowHalf, HighHalf;
    Slice2(data, at);
    StoreThenLoad16(w);
    LoadThenStore16(data[at], data[at + 1]);
  }

  lemma ReadsWord32(w: bv32, data: seq<bv8>, at: nat)
    requires at + 4 <= |data|
    ensures Load(data[at], data[at + 1], data[at + 2], data[at + 3]) == w <==> data[at..at + 4] == Bytes32(w)
  {
    hide Load, Byte0, Byte1, Byte2, Byte3;
    Slice4(data, at);
    StoreThenLoad(w);
    LoadThenStore(data[at], data[at + 1], data[at + 2], data[at + 3]);
  }

  /** The bytes of v lie at a position. */
  predicate Lies(v: Value, data: seq<bv8>, at: nat) {
    at + |BytesOf(v)| <= |data| && data[at..at + |BytesOf(v)|] == BytesOf(v)
  }

  lemma StringEndsThere(text: seq<bv8>, data: seq<bv8>, at: nat)
    requires NulFree(text) && at + |text| + 1 <= |data| && data[at..at + |text| + 1] == text + [0]
    ensures StrLen(data, at) == |text| && data[at..at + |text|] == text
  {
    var slice := data[at..at + |text| + 1];
    assert data[at + |text|] == slice[|text|];
    assert data[at..at + |text|] == slice[..|text|] == text;
    StrLenIs(data, at, |text|);
  }

  lemma SliceOneMore(data: seq<bv8>, at: nat, n: nat)
    requires at + n < |data|
    ensures data[at..at + n + 1] == data[at..at + n] + [data[at + n]]
  {
  }

  lemma ReadsString(text: seq<bv8>, data: seq<bv8>, at: nat)
    requires at <= |data| && NulFree(text)
    ensures Lies(VStr(text), data, at) ==> ReadAt(KStr, data, at) == Some((VStr(text), at + |text| + 1))
    ensures ReadAt(KStr, data, at).Some? && ReadAt(KStr, data, at).value.0 == VStr(text) ==> Lies(VStr(text), data, at)
  {
    if Lies(VStr(text), data, at) {
      StringEndsThere(text, data, at);
    } else {
      var n := StrLen(data, at);
      if at + n + 1 <= |data| {
        SliceOneMore(data, at, n);
      }
    }
  }

  /** Reading a value of v's kind gives v exactly when v's bytes lie there, and then moves past
      them. */
  ghost predicate ReadsBack(v: Value, data: seq<bv8>, at: nat)
    requires at <= |data|
  {
    var r := ReadAt(KindOf(v), data, at);
    && (Lies(v, data, at) ==> r == Some((v, at + |BytesOf(v)|)))
    && (r.Some? && r.value.0 == v ==> Lies(v, data, at))
  }

  lemma StringReadsBack(v: Value, data: seq<bv8>, at: nat)
    requires at <= |data| && v.VStr? && NulFree(v.text)
    ensures ReadsBack(v, data, at)
  {
    hide StrLen, NulFree, Lies;
    ReadsString(v.text, data, at);
    StringSize(v.text);
  }

  lemma StringSize(text: seq<bv8>)
    ensures |BytesOf(VStr(text))| == |text| + 1
  {
  }

  lemma ShortReadsBack(v: Value, data: seq<bv8>, at: nat)
    requires at <= |data| && (v.VShort? || v.VUShort?)
    ensures ReadsBack(v, data, at)
  {
    hide Load16, LowHalf, HighHalf, StrLen;
    if at + 2 <= |data| {
      ReadsWord16(if v.VShort? then v.s else v.u, data, at);
    }
  }

  lemma WordReadsBack(v: Value, data: seq<bv8>, at: nat)
    requires at <= |data| && (v.VInt? || v.VDWord? || v.VFloat?)
    ensures ReadsBack(v, data, at)
  {
    hide Load, Byte0, Byte1, Byte2, Byte3, StrLen;
    if at + 4 <= |data| {
      ReadsWord32(if v.VInt? then v.i else if v.VDWord? then v.d else v.bits, data, at);
    }
  }

  lemma BytesReadBack(v: Value, data: seq<bv8>, at: nat)
    requires at <= |data| && (v.VByte? || v.VChar? || v.VBlock?)
    ensures ReadsBack(v, data, at)
  {
    hide StrLen, Load, Load16, Bytes16, Bytes32;
    if !v.VBlock? && at + 1 <= |data| {
      Slice1(data, at);
    }
  }

  lemma ReadsExactly(v: Value, data: seq<bv8>, at: nat)
    requires at <= |data| && IsCString(v)
    ensures ReadsBack(v, data, at)
  {
    hide ReadsBack;
    if v.VStr? {
      StringReadsBack(v, data, at);
    } else if v.VShort? || v.VUShort? {
      ShortReadsBack(v, data, at);
    } else if v.VInt? || v.VDWord? || v.VFloat? {
      WordReadsBack(v, data, at);
    } else {
      BytesReadBack(v, data, at);
    }
  }

  // ---------- lists ----------

  ghost predicate AllCStrings(vs: seq<Value>) {
    forall i :: 0 <= i < |vs| ==> IsCString(vs[i])
  }

  /** The bytes of a list lie at a position. */
  predicate LieAll(vs: seq<Value>, data: seq<bv8>, at: nat) {
    at + |BytesOfAll(vs)| <= |data| && data[at..at + |BytesOfAll(vs)|] == BytesOfAll(vs)
  }

  lemma LieAllSplits(vs: seq<Value>, data: seq<bv8>, at: nat)
    requires vs != [] && at + |BytesOfAll(vs)| <= |data|
    ensures LieAll(vs, data, at) <==> Lies(vs[0], data, at) && LieAll(vs[1..], data, at + |BytesOf(vs[0])|)
    ensures at + |BytesOf(vs[0])| + |BytesOfAll(vs[1..])| <= |data|
  {
    hide BytesOf;
    var n, m := |BytesOf(vs[0])|, |BytesOfAll(vs[1..])|;
    SplitSlice(data, at, n, m);
    PrefixUnique(BytesOf(vs[0]), data[at..at + n], BytesOfAll(vs[1..]), data[at + n..at + n + m]);
  }

  /** A list reads back exactly when its bytes lie there. */
  lemma {:induction false} ListReadsExactly(vs: seq<Value>, data: seq<bv8>, at: nat)
    requires AllCStrings(vs) && at + |BytesOfAll(vs)| <= |data|
    ensures ReadAll(KindsOf(vs), data, at) == Some(vs) <==> LieAll(vs, data, at)
    decreases |vs|
  {
    hide BytesOf, LieAll, ReadAll, KindsOf, BytesOfAll, IsCString;
    if vs == [] {
      NothingReads(data, at);
    } else {
      TailOfCStrings(vs);
      LieAllSplits(vs, data, at);
      ListReadsExactly(vs[1..], data, at + |BytesOf(vs[0])|);
      ListReadsStep(vs, data, at);
    }
  }

  lemma NothingReads(data: seq<bv8>, at: nat)
    requires at <= |data|
    ensures ReadAll(KindsOf([]), data, at) == Some([]) && LieAll([], data, at)
  {
  }

  lemma TailOfCStrings(vs: seq<Value>)
    requires AllCStrings(vs) && vs != []
    ensures IsCString(vs[0]) && AllCStrings(vs[1..])
  {
    hide IsCString;
  }

  lemma ListReadsStep(vs: seq<Value>, data: seq<bv8>, at: nat)
    requires vs != [] && IsCString(vs[0]) && at + |BytesOfAll(vs)| <= |data| && at + |BytesOf(vs[0])| <= |data|
    requires var next := at + |BytesOf(vs[0])|;
             ReadAll(KindsOf(vs[1..]), data, next) == Some(vs[1..]) <==> LieAll(vs[1..], data, next)
    ensures ReadAll(KindsOf(vs), data, at) == Some(vs) <==> LieAll(vs, data, at)
  {
    hide BytesOf, ReadAt, KindOf, Lies, LieAll, ReadAll, KindsOf, BytesOfAll, IsCString;
    LieAllSplits(vs, data, at);
    ReadsExactly(vs[0], data, at);
    ReadAllStep(vs, data, at);
  }

  lemma ReadAllStep(vs: seq<Value>, data: seq<bv8>, at: nat)
    requires vs != [] && at + |BytesOf(vs[0])| <= |data|
    ensures var first, next := ReadAt(KindOf(vs[0]), data, at), at + |BytesOf(vs[0])|;
            && (first == Some((vs[0], next)) ==>
                  (ReadAll(KindsOf(vs), data, at) == Some(vs) <==> ReadAll(KindsOf(vs[1..]), data, next) == Some(vs[1..])))
            && (ReadAll(KindsOf(vs), data, at) == Some(vs) ==> first.Some? && first.value.0 == vs[0])
  {
    hide ReadAt, KindOf, BytesOf;
    assert KindsOf(vs)[0] == KindOf(vs[0]) && KindsOf(vs)[1..] == KindsOf(vs[1..]);
    assert vs == [vs[0]] + vs[1..];
    var first := ReadAt(KindOf(vs[0]), data, at);
    if first.Some? && first.value.1 <= |data| {
      var rest := ReadAll(KindsOf(vs[1..]), data, first.value.1);
      if rest.Some? {
        ConsEqual(first.value.0, rest.value, vs);
      }
    }
  }

  lemma ConsEqual(v: Value, rest: seq<Value>, vs: seq<Value>)
    requires vs != []
    ensures [v] + rest == vs <==> v == vs[0] && rest == vs[1..]
  {
    if [v] + rest == vs {
      assert vs[1..] == ([v] + rest)[1..] == rest;
    }
    if v == vs[0] && rest == vs[1..] {
      assert [v] + rest == vs;
    }
  }

  lemma SplitSlice(data: seq<bv8>, at: nat, n: nat, m: nat)
    requires at + n + m <= |data|
    ensures data[at..at + n + m] == data[at..at + n] + data[at + n..at + n + m]
  {
  }

  lemma PrefixUnique(a: seq<bv8>, a': seq<bv8>, b: seq<bv8>, b': seq<bv8>)
    requires |a| == |a'|
    ensures a + b == a' + b' <==> a == a' && b == b'
  {
    if a + b == a' + b' {
      assert a == (a + b)[..|a|] == a';
      assert b == (a + b)[|a|..] == b';
    }
  }

  ghost predicate AllZero(s: seq<bv8>) {
    forall i :: 0 <= i < |s| ==> s[i] == 0
  }

  /** Every byte after the first empty string is zero: only there can a dropped string and the
      zeroed memory behind the data make up for one another. */
  ghost predicate Recoverable(vs: seq<Value>) {
    if vs == [] then true
    else if vs[0] == VStr([]) then AllZero(BytesOfAll(vs))
    else Recoverable(vs[1..])
  }

  /** The memory after writing: what was written, then zeros. */
  ghost predicate Memory(data: seq<bv8>, vs: seq<Value>) {
    |WrittenAll(vs)| <= |data|
    && forall j :: 0 <= j < |data| ==> data[j] == if j < |WrittenAll(vs)| then WrittenAll(vs)[j] else 0
  }

  /** Dropping empty strings only moves bytes towards the front. */
  lemma {:induction false} WrittenComesLater(vs: seq<Value>, k: nat) returns (k': nat)
    requires k < |WrittenAll(vs)|
    ensures k <= k' < |BytesOfAll(vs)| && WrittenAll(vs)[k] == BytesOfAll(vs)[k']
    decreases |vs|
  {
    hide BytesOf;
    var w := |Written(vs[0])|;
    if vs[0] != VStr([]) && k < w {
      k' := k;
    } else {
      k' := WrittenComesLater(vs[1..], k - w);
      k' := k' + |BytesOf(vs[0])|;
    }
  }

  /** If the list is found although its first string was dropped, each of its bytes equals a
      later one or the zero behind the data. */
  lemma {:induction false} ByteIsZero(vs: seq<Value>, data: seq<bv8>, i: nat)
    requires vs != [] && vs[0] == VStr([]) && Memory(data, vs) && LieAll(vs, data, 0)
    requires i < |BytesOfAll(vs)|
    ensures BytesOfAll(vs)[i] == 0
    decreases |BytesOfAll(vs)| - i
  {
    hide BytesOfAll, WrittenAll, Memory, LieAll;
    LieAt(vs, data, i);
    MemoryAt(vs, data, i);
    FirstDropped(vs);
    if i < |WrittenAll(vs)| {
      var k := WrittenComesLater(vs[1..], i);
      ByteIsZero(vs, data, k + 1);
    }
  }

  lemma LieAt(vs: seq<Value>, data: seq<bv8>, i: nat)
    requires LieAll(vs, data, 0) && i < |BytesOfAll(vs)|
    ensures i < |data| && data[i] == BytesOfAll(vs)[i]
  {
    assert data[0..0 + |BytesOfAll(vs)|][i] == data[i];
  }

  lemma MemoryAt(vs: seq<Value>, data: seq<bv8>, i: nat)
    requires Memory(data, vs) && i < |data|
    ensures data[i] == if i < |WrittenAll(vs)| then WrittenAll(vs)[i] else 0
  {
  }

  lemma FirstDropped(vs: seq<Value>)
    requires vs != [] && vs[0] == VStr([])
    ensures WrittenAll(vs) == WrittenAll(vs[1..]) && BytesOfAll(vs) == [0] + BytesOfAll(vs[1..])
  {
  }

  lemma {:induction false} ZerosStayZeros(vs: seq<Value>)
    requires AllZero(BytesOfAll(vs))
    ensures AllZero(WrittenAll(vs)) && |WrittenAll(vs)| <= |BytesOfAll(vs)|
  {
    forall k | 0 <= k < |WrittenAll(vs)|
      ensures WrittenAll(vs)[k] == 0
    {
      var k' := WrittenComesLater(vs, k);
    }
    WrittenIsShorter(vs);
  }

  lemma {:induction false} WrittenIsShorter(vs: seq<Value>)
    ensures |WrittenAll(vs)| <= |BytesOfAll(vs)|
  {
    if vs != [] {
      WrittenIsShorter(vs[1..]);
    }
  }

  lemma MemoryTail(data: seq<bv8>, vs: seq<Value>)
    requires vs != [] && vs[0] != VStr([]) && Memory(data, vs)
    ensures var n := |BytesOf(vs[0])|;
            n <= |data| && data[..n] == BytesOf(vs[0]) && Memory(data[n..], vs[1..])
  {
    hide BytesOf, WrittenAll;
    WrittenFirst(vs);
    Beyond(BytesOf(vs[0]), WrittenAll(vs[1..]), data);
  }

  lemma WrittenFirst(vs: seq<Value>)
    requires vs != [] && vs[0] != VStr([])
    ensures WrittenAll(vs) == BytesOf(vs[0]) + WrittenAll(vs[1..])
  {
    hide BytesOf;
  }

  lemma Beyond(a: seq<bv8>, b: seq<bv8>, data: seq<bv8>)
    requires |a + b| <= |data|
    requires forall j :: 0 <= j < |data| ==> data[j] == if j < |a + b| then (a + b)[j] else 0
    ensures data[..|a|] == a
    ensures forall j :: 0 <= j < |data[|a|..]| ==> data[|a|..][j] == if j < |b| then b[j] else 0
  {
    forall j | 0 <= j < |data[|a|..]|
      ensures data[|a|..][j] == if j < |b| then b[j] else 0
    {
      assert data[|a|..][j] == data[|a| + j];
    }
  }

  lemma {:induction false} FoundIffRecoverable(vs: seq<Value>, data: seq<bv8>)
    requires Memory(data, vs) && |BytesOfAll(vs)| <= |data|
    ensures LieAll(vs, data, 0) <==> Recoverable(vs)
    decreases |vs|
  {
    if vs != [] && vs[0] == VStr([]) {
      FoundIffZero(vs, data);
    } else if vs != [] {
      hide BytesOf, Memory, LieAll, Lies;
      var n := |BytesOf(vs[0])|;
      MemoryTail(data, vs);
      FoundIffRecoverable(vs[1..], data[n..]);
      LieAllSplits(vs, data, 0);
      LieShift(vs[1..], data, n);
      LieHere(vs[0], data);
    }
  }

  lemma LieShift(vs: seq<Value>, data: seq<bv8>, n: nat)
    requires n <= |data|
    ensures LieAll(vs, data[n..], 0) <==> LieAll(vs, data, n)
  {
    if n + |BytesOfAll(vs)| <= |data| {
      assert data[n..][0..0 + |BytesOfAll(vs)|] == data[n..n + |BytesOfAll(vs)|];
    }
  }

  lemma LieHere(v: Value, data: seq<bv8>)
    requires |BytesOf(v)| <= |data| && data[..|BytesOf(v)|] == BytesOf(v)
    ensures Lies(v, data, 0)
  {
    assert data[0..0 + |BytesOf(v)|] == data[..|BytesOf(v)|];
  }

  lemma FoundIffZero(vs: seq<Value>, data: seq<bv8>)
    requires vs != [] && vs[0] == VStr([]) && Memory(data, vs) && |BytesOfAll(vs)| <= |data|
    ensures LieAll(vs, data, 0) <==> AllZero(BytesOfAll(vs))
  {
    if LieAll(vs, data, 0) {
      forall i | 0 <= i < |BytesOfAll(vs)|
        ensures BytesOfAll(vs)[i] == 0
      {
        ByteIsZero(vs, data, i);
      }
    }
    if AllZero(BytesOfAll(vs)) {
      ZerosStayZeros(vs);
    }
  }

  /** Written into a zeroed packet and read back with the same kinds, a list that fits comes back
      if and only if every byte after its first empty string is zero. */
  lemma WrittenReadsBackIff(vs: seq<Value>, data: seq<bv8>)
    requires AllCStrings(vs) && Memory(data, vs) && |BytesOfAll(vs)| <= |data|
    ensures ReadAll(KindsOf(vs), data, 0) == Some(vs) <==> Recoverable(vs)
  {
    ListReadsExactly(vs, data, 0);
    FoundIffRecoverable(vs, data);
  }

  ghost predicate NoEmptyStrings(vs: seq<Value>) {
    forall i :: 0 <= i < |vs| ==> vs[i] != VStr([])
  }

  lemma {:induction false} NothingDropped(vs: seq<Value>)
    requires NoEmptyStrings(vs)
    ensures Recoverable(vs) && WrittenAll(vs) == BytesOfAll(vs)
  {
    if vs != [] {
      NothingDropped(vs[1..]);
    }
  }

  /** A dropped string shifts what follows it: an empty string before the byte 5 does not come
      back. */
  lemma EmptyStringIsLost(data: seq<bv8>)
    requires |data| >= 2 && Memory(data, [VStr([]), VByte(5)])
    ensures ReadAll([KStr, KByte], data, 0) != Some([VStr([]), VByte(5)])
  {
    var vs := [VStr([]), VByte(5)];
    assert vs[1..] == [VByte(5)] && vs[1..][1..] == [];
    assert BytesOfAll(vs) == [0, 5];
    assert KindsOf(vs) == [KStr, KByte] by {
      assert KindsOf(vs[1..]) == [KByte];
    }
    assert BytesOfAll(vs)[1] != 0;
    WrittenReadsBackIff(vs, data);
  }
}
