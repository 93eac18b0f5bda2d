/** Every encoder against every decoder: what any of the three encoders emits, both decoders
    turn back into the input. */
module LzfRoundTrip {
  import opened LzfFormat
  import LzfCompress
  import LzfCompressBest
  import LzfDecompress
  import LzfEmit
  import opened LzfParse
  import opened LzfWorstCase
  import Clzf

  datatype Encoder = Fast(initHtab: bool, hash: nat -> nat)
                   | Best(base: nat, hash3: (Octet, Octet, Octet) -> nat)
                   | CSharp(csHash: nat -> nat)

  /** No object lies in the first 64 KB of memory. */
  const LOWEST_ADDRESS := LzfCompressBest.U16

  datatype Decoder = CDecoder | CSharpDecoder

  /** The output size from which on the encoder never gives up. */
  function Enough(e: Encoder, n: nat): nat
    requires n > 0
  {
    match e
    case Fast(_, _) => LzfCompress.Needed(n)
    case Best(_, _) => LzfCompressBest.Needed(n)
    case CSharp(_) => Clzf.Needed(n)
  }

  /** The hash looks at three octets and nothing else; the best encoder's always does. */
  ghost predicate HashesThree(e: Encoder) {
    match e
    case Fast(_, hash) => LzfCompress.ThreeOctets(hash)
    case Best(_, _) => true
    case CSharp(hash) => Clzf.ThreeOctets(hash)
  }

  /** What each encoder leaves as literals, and how long its matches are. */
  ghost predicate NoMatchMissed(e: Encoder, input: seq<Octet>, toks: seq<Token>, outLen: nat) {
    match e
    case Fast(initHtab, hash) => LzfCompress.Chosen(input, hash, initHtab, toks, outLen)
    case Best(_, _) => LzfCompressBest.Chosen(input, toks, outLen)
    case CSharp(hash) => Clzf.Chosen(input, hash, toks)
  }

  lemma NoMatchMissedMeans(e: Encoder, input: seq<Octet>, toks: seq<Token>, outLen: nat)
    requires NoMatchMissed(e, input, toks, outLen)
    ensures AllWellFormed(toks) && FullRuns(toks)
  {
  }

  /** A call of the chosen encoder with an output buffer of outLen octets. The C# encoder needs
      two octets of input. The result is the compressed string, empty for a zero return. */
  method Encode(e: Encoder, input: seq<Octet>, beyond: Octet, outLen: nat) returns (packed: seq<Octet>, ghost toks: seq<Token>)
    requires e.Best? ==> e.base >= LOWEST_ADDRESS
    requires e.CSharp? ==> |input| >= 2
    ensures |packed| <= outLen && |packed| <= LzfEmit.MaxCompressedSize(|input|)
    ensures input != [] && outLen >= Enough(e, |input|) ==> packed != []
    ensures packed != [] ==> Decode(packed, |input|) == Ok(input)
    ensures AllWellFormed(toks) && NoMatchMissed(e, input, toks, outLen)
    ensures packed != [] ==> packed == LzfFormat.Encode(toks) && Expand(toks) == Sequences.Some(input)
    ensures packed == [] && input != [] ==> LzfEmit.GaveUp(input, toks, outLen)
  {
    hide LzfCompress.Chosen, LzfCompressBest.Chosen, Clzf.Chosen, LzfEmit.GaveUp, LzfFormat.Encode, Expand;
    var output := new Octet[if outLen < 2 && e.Best? then 2 else outLen];
    var r: nat;
    match e {
      case Fast(initHtab, hash) => r, toks := LzfCompress.Compress(input, beyond, output, outLen, initHtab, hash);
      case Best(base, hash) =>
        var state := new LzfCompressBest.State();
        r, toks := LzfCompressBest.CompressBest(input, beyond, base, output, outLen, hash, state);
      case CSharp(hash) => r, toks := Clzf.Compress(input, output, hash);
    }
    NoMatchMissedMeans(e, input, toks, outLen);
    packed := if r == 0 then [] else output[..r];
    if r != 0 {
      DecodeInvertsEncode(toks, |input|);
    }
  }

  /** How many octets at the end an encoder does not try to match. */
  function Margin(e: Encoder): nat {
    if e.CSharp? then 4 else 2
  }

  /** Equal octets make a parse of few tokens. */
  lemma EqualOctetsPacked(e: Encoder, input: seq<Octet>, toks: seq<Token>, outLen: nat)
    requires NoMatchMissed(e, input, toks, outLen) && HashesThree(e) && AllEqual(input) && AllWellFormed(toks)
    requires |Marks(toks)| <= |input| && Expand(toks).Some?
    ensures |LzfFormat.Encode(toks)| <= 3 * |input| / 263 + 7 + 2 * Margin(e)
  {
    hide Greedy, LongestMatches, KeysOfThree, Packs, SoundStarts, Shaped, Marks, LzfFormat.Encode, Expand,
      LzfCompress.ThreeOctets, Clzf.ThreeOctets;
    MarksAreShaped(toks);
    StartsAreSound(toks);
    match e {
      case Fast(initHtab, hash) =>
        LzfCompress.KeysAreOfThree(input, hash);
        GreedyPacks(input, LzfCompress.Keys(input, hash), Marks(toks), initHtab, 2);
      case Best(_, _) =>
        LongestPacks(input, Marks(toks));
      case CSharp(hash) =>
        Clzf.KeysAreOfThree(input, hash);
        GreedyPacks(input, Clzf.Keys(input, hash), Marks(toks), true, 4);
    }
    EqualOctetsAreSmall(input, toks, Margin(e));
  }

  /** Equal octets are always compressed, into about three octets for 263, when there is room for
      that and four octets to spare. */
  method EncodeEqual(e: Encoder, input: seq<Octet>, beyond: Octet, outLen: nat) returns (packed: seq<Octet>)
    requires e.Best? ==> e.base >= LOWEST_ADDRESS
    requires e.CSharp? ==> |input| >= 2
    requires HashesThree(e) && AllEqual(input) && input != []
    ensures |packed| <= 3 * |input| / 263 + 7 + 2 * Margin(e)
    ensures outLen > 3 * |input| / 263 + 11 + 2 * Margin(e) ==> packed != []
  {
    hide NoMatchMissed, LzfFormat.Encode, Expand, Marks, HashesThree, AllEqual;
    ghost var toks;
    packed, toks := Encode(e, input, beyond, outLen);
    if packed != [] {
      OneMarkPerOctet(toks);
    }
    EqualOctetsPacked(e, input, toks, outLen);
  }

  /** A call of the chosen decoder; a failed call gives the empty string. */
  method DecodeWith(d: Decoder, packed: seq<Octet>, beyond: Octet, cap: nat) returns (data: seq<Octet>)
    requires packed != []
    ensures data == match Decode(packed, cap) case Ok(x) => x case Err(_) => []
  {
    var output := new Octet[cap];
    match d {
      case CDecoder =>
        var r, errno := LzfDecompress.Decompress(packed, beyond, output, cap);
        data := output[..r];
      case CSharpDecoder =>
        var outcome := Clzf.Decompress(packed, output, cap);
        data := if outcome.Returned? then output[..outcome.n] else [];
    }
  }

  /** The round trip, for every pair of encoder and decoder, every input, every hash function,
      every output limit and every decoding buffer that can hold the data. */
  method RoundTrip(e: Encoder, d: Decoder, input: seq<Octet>, beyond: Octet, outLen: nat, cap: nat)
    returns (packed: seq<Octet>, data: seq<Octet>)
    requires e.Best? ==> e.base >= LOWEST_ADDRESS
    requires e.CSharp? ==> |input| >= 2
    requires cap >= |input|
    ensures packed != [] ==> data == input
    ensures input != [] && outLen >= Enough(e, |input|) ==> packed != [] && data == input
  {
    ghost var toks;
    packed, toks := Encode(e, input, beyond, outLen);
    data := [];
    if packed != [] {
      LzfDecompress.CapacityOnlyLimits(packed, |input|, cap, input);
      data := DecodeWith(d, packed, beyond, cap);
    }
  }

  /** Enough is exact for every length: its costliest input is compressed if and only if the output
      holds Enough octets, whatever the hash of three octets. The tables of the best encoder may
      hold anything; for four octets they hold the address of the input. */
  method EnoughIsExact(e: Encoder, n: nat, outLen: nat, beyond: Octet) returns (r: nat)
    requires n > 0 && (e.CSharp? ==> n >= 2)
    requires e.Fast? ==> LzfCompress.ThreeOctets(e.hash)
    requires e.Best? ==> e.base >= LOWEST_ADDRESS
    ensures r == 0 <==> outLen < Enough(e, n)
  {
    var input := Costliest(n);
    if n >= 4 {
      CostliestIsCostly(n);
    }
    var output := new Octet[if outLen < 2 && e.Best? then 2 else outLen];
    ghost var toks;
    match e {
      case Fast(initHtab, hash) =>
        r, toks := LzfCompress.Compress(input, beyond, output, outLen, initHtab, hash);
      case Best(base, hash) =>
        var state := new LzfCompressBest.State();
        forall i | 0 <= i < state.first.Length {
          state.first[i] := base;
        }
        assert LzfCompressBest.Worst(input, hash, base, state.first[..]);
        r, toks := LzfCompressBest.CompressBest(input, beyond, base, output, outLen, hash, state);
      case CSharp(hash) =>
        r, toks := Clzf.Compress(input, output, hash);
    }
  }

  /** lzf.h promises that LZF_MAX_COMPRESSED_SIZE octets of output always suffice. With the shipped
      hash they do for no length at all. */
  method MacroFails(n: nat, outLen: nat, beyond: Octet, initHtab: bool) returns (r: nat)
    requires n > 0 && outLen <= LzfEmit.MaxCompressedSize(n)
    ensures r == 0
  {
    LzfCompress.IdxUsesThreeOctets();
    LzfCompress.MacroFallsShort(n);
    r := EnoughIsExact(Fast(initHtab, LzfCompress.Idx), n, outLen, beyond);
  }

  /** How the macro compares with what each encoder needs: only for the C# encoder, and for
      multiples of 32, is it enough. */
  lemma MacroAgainstEnough(e: Encoder, n: nat)
    requires n > 0
    ensures LzfEmit.MaxCompressedSize(n) >= Enough(e, n) <==> e.CSharp? && n % 32 == 0
    ensures Enough(e, n) <= LzfEmit.MaxCompressedSize(n) + 3
  {
    hide LzfEmit.MaxCompressedSize;
    LzfEmit.MaxIs(n);
    Rounding(n);
  }

  lemma Rounding(n: nat)
    ensures (n + 31) / 32 == n / 32 + if n % 32 == 0 then 0 else 1
    ensures n >= 4 ==> n / 32 - 1 <= (n - 4) / 32 <= n / 32
  {
  }
}
