/**
 A structured runtime call: the tuple `(pallet_index, call_index, args...)`
 that `send_extrinsic` builds and the transaction manager encodes itself. A
 tuple encodes as the concatenation of its fields, so the call's bytes are the
 two index bytes followed by each argument's encoding in order.

 The bytes of a call do not say which types its arguments have, so the decoder
 is told the argument kinds, as the runtime's call metadata tells it.
 */
module Calls {
  import opened Wrappers
  import opened Bytes
  import Compact
  import opened Runtime

  /** The argument kinds of the calls the manager builds. */
  datatype Arg =
    | CompactArg(amount: u128)
    | AddressArg(address: MultiAddress)

  datatype ArgKind = CompactKind | AddressKind

  datatype Call = Call(palletIndex: u8, callIndex: u8, args: seq<Arg>)

  /** The call built by `send_extrinsic`: a destination address and a compact amount. */
  function TransferCall(palletIndex: u8, callIndex: u8, dest: MultiAddress, amount: u128): (c: Call) {
    Call(palletIndex, callIndex, [AddressArg(dest), CompactArg(amount)])
  }

  /** The kind of an argument: what the decoder must be told to read it back. */
  function KindOf(a: Arg): (k: ArgKind)
    ensures k == CompactKind <==> a.CompactArg?
  {
    match a
    case CompactArg(_) => CompactKind
    case AddressArg(_) => AddressKind
  }

  /** The kind signature of an argument list. */
  function KindsOf(args: seq<Arg>): (ks: seq<ArgKind>)
    ensures |ks| == |args|
    ensures forall i :: 0 <= i < |args| ==> ks[i] == KindOf(args[i])
  {
    if |args| == 0 then [] else [KindOf(args[0])] + KindsOf(args[1..])
  }

  function EncodeArg(a: Arg): (r: seq<u8>) {
    match a
    case CompactArg(n) => Compact.EncodeCompactU128(n)
    case AddressArg(m) => EncodeMultiAddress(m)
  }

  function EncodeArgs(args: seq<Arg>): (r: seq<u8>) {
    if |args| == 0 then [] else EncodeArg(args[0]) + EncodeArgs(args[1..])
  }

  /** The encoding of a call: the two index bytes, then the arguments. */
  function EncodeCall(c: Call): (r: seq<u8>)
    ensures |r| >= 2 && r[0] == c.palletIndex && r[1] == c.callIndex
    ensures r[2..] == EncodeArgs(c.args)
  {
    [c.palletIndex, c.callIndex] + EncodeArgs(c.args)
  }

  /** Tuple encoding is concatenation: the arguments of a split list encode as the two halves. */
  lemma {:induction false} LemmaEncodeArgsAppend(xs: seq<Arg>, ys: seq<Arg>)
    ensures EncodeArgs(xs + ys) == EncodeArgs(xs) + EncodeArgs(ys)
  {
    if |xs| > 0 {
      assert (xs + ys)[0] == xs[0];
      assert (xs + ys)[1..] == xs[1..] + ys;
      LemmaEncodeArgsAppend(xs[1..], ys);
    } else {
      assert xs + ys == ys;
    }
  }

  // ---- Decoding, directed by the argument kinds ----

  function DecodeArg(kind: ArgKind, s: seq<u8>): (r: Option<(Arg, seq<u8>)>) {
    match kind
    case CompactKind =>
      (match Compact.DecodeCompactU128(s)
       case None => None
       case Some((n, rest)) => Some((CompactArg(n), rest)))
    case AddressKind =>
      (match DecodeMultiAddress(s)
       case None => None
       case Some((m, rest)) => Some((AddressArg(m), rest)))
  }

  function DecodeArgs(kinds: seq<ArgKind>, s: seq<u8>): (r: Option<(seq<Arg>, seq<u8>)>) {
    if |kinds| == 0 then Some(([], s))
    else
      match DecodeArg(kinds[0], s)
      case None => None
      case Some((a, s1)) =>
        match DecodeArgs(kinds[1..], s1)
        case None => None
        case Some((args, rest)) => Some(([a] + args, rest))
  }

  /** Reads the two index bytes, then arguments of the given kinds. */
  function DecodeCall(kinds: seq<ArgKind>, s: seq<u8>): (r: Option<(Call, seq<u8>)>) {
    if |s| < 2 then None
    else
      match DecodeArgs(kinds, s[2..])
      case None => None
      case Some((args, rest)) => Some((Call(s[0], s[1], args), rest))
  }

  lemma LemmaArgRoundTrip(a: Arg, rest: seq<u8>)
    ensures DecodeArg(KindOf(a), EncodeArg(a) + rest) == Some((a, rest))
  {
    match a
    case CompactArg(n) => Compact.LemmaCompactU128RoundTrip(n, rest);
    case AddressArg(m) => LemmaMultiAddressRoundTrip(m, rest);
  }

  lemma LemmaArgCanonical(kind: ArgKind, s: seq<u8>)
    requires DecodeArg(kind, s).Some?
    ensures KindOf(DecodeArg(kind, s).value.0) == kind
    ensures s == EncodeArg(DecodeArg(kind, s).value.0) + DecodeArg(kind, s).value.1
  {
    match kind
    case CompactKind => Compact.LemmaCompactU128Canonical(s);
    case AddressKind => LemmaMultiAddressCanonical(s);
  }

  lemma {:induction false} LemmaArgsRoundTrip(args: seq<Arg>, rest: seq<u8>)
    ensures DecodeArgs(KindsOf(args), EncodeArgs(args) + rest) == Some((args, rest))
  {
    var kinds := KindsOf(args);
    var s := EncodeArgs(args) + rest;
    if |args| == 0 {
      assert s == rest;
    } else {
      var tail := EncodeArgs(args[1..]) + rest;
      LemmaRegroup2(EncodeArg(args[0]), EncodeArgs(args[1..]), rest);
      assert s == EncodeArg(args[0]) + tail;
      assert kinds[0] == KindOf(args[0]);
      assert kinds[1..] == KindsOf(args[1..]);
      LemmaArgRoundTrip(args[0], tail);
      assert DecodeArg(kinds[0], s) == Some((args[0], tail));
      LemmaArgsRoundTrip(args[1..], rest);
      assert DecodeArgs(kinds[1..], tail) == Some((args[1..], rest));
      assert [args[0]] + args[1..] == args;
    }
  }

  lemma {:induction false} LemmaArgsCanonical(kinds: seq<ArgKind>, s: seq<u8>)
    requires DecodeArgs(kinds, s).Some?
    ensures KindsOf(DecodeArgs(kinds, s).value.0) == kinds
    ensures s == EncodeArgs(DecodeArgs(kinds, s).value.0) + DecodeArgs(kinds, s).value.1
  {
    if |kinds| > 0 {
      var (a, s1) := DecodeArg(kinds[0], s).value;
      var (args, rest) := DecodeArgs(kinds[1..], s1).value;
      var xs := [a] + args;
      assert DecodeArgs(kinds, s) == Some((xs, rest));
      LemmaArgCanonical(kinds[0], s);
      assert s == EncodeArg(a) + s1;
      LemmaArgsCanonical(kinds[1..], s1);
      assert s1 == EncodeArgs(args) + rest;
      assert xs[0] == a && xs[1..] == args;
      LemmaKindsOfCons(xs);
      assert kinds == [kinds[0]] + kinds[1..];
      assert EncodeArgs(xs) == EncodeArg(a) + EncodeArgs(args);
      LemmaRegroup2(EncodeArg(a), EncodeArgs(args), rest);
    }
  }

  lemma LemmaKindsOfCons(xs: seq<Arg>)
    requires |xs| > 0
    ensures KindsOf(xs) == [KindOf(xs[0])] + KindsOf(xs[1..])
  {
  }

  /** Given its argument kinds, a call decodes back from its bytes, and the bytes after it are untouched. */
  lemma LemmaCallRoundTrip(c: Call, rest: seq<u8>)
    ensures DecodeCall(KindsOf(c.args), EncodeCall(c) + rest) == Some((c, rest))
  {
    var s := EncodeCall(c) + rest;
    assert s[2..] == EncodeArgs(c.args) + rest;
    LemmaArgsRoundTrip(c.args, rest);
  }

  /** Every input the decoder accepts is the encoding of a call of the requested kinds, followed by the rest. */
  lemma LemmaCallCanonical(kinds: seq<ArgKind>, s: seq<u8>)
    requires DecodeCall(kinds, s).Some?
    ensures KindsOf(DecodeCall(kinds, s).value.0.args) == kinds
    ensures s == EncodeCall(DecodeCall(kinds, s).value.0) + DecodeCall(kinds, s).value.1
  {
    LemmaArgsCanonical(kinds, s[2..]);
    assert s == [s[0], s[1]] + s[2..];
  }

  /** Two calls with the same argument kinds and the same bytes are the same call. */
  lemma LemmaEncodeCallInjective(c: Call, d: Call)
    requires KindsOf(c.args) == KindsOf(d.args)
    requires EncodeCall(c) == EncodeCall(d)
    ensures c == d
  {
    LemmaCallRoundTrip(c, []);
    LemmaCallRoundTrip(d, []);
  }
}
