/**
  The one-shot MAC `sm4_CBC_MAC` of public/sm/sm4.cpp. Its buffer for a last partial block is not
  initialised, so what the buffer held before is a parameter here.
 */
module Sm4Mac {
  import opened Common
  import opened Sm4Cipher
  import opened Sm4Modes
  import opened Sm4OneShot
  import opened Sm4Stream

  /** The last block: the rest of the message, then what the buffer held. */
  function Unfilled(rest: seq<byte>, stale: seq<byte>): (b: seq<byte>)
    requires |rest| < 16 && |stale| == 16
    ensures |b| == 16
  {
    rest + stale[|rest|..]
  }

  function MacBlock(t: Tables, k: Key, iv: Block, data: seq<byte>, stale: seq<byte>): (c: Block)
    requires |stale| == 16
  {
    var m := Cut(|data|);
    var v := EncIv(t, k, CBC, iv, data[..m]);
    if m == |data| then v else EncStep(t, k, CBC, v, Unfilled(data[m..], stale))
  }

  /** The loops of `sm4_CBC_MAC`; `last` is the local buffer as the stack left it. */
  method CbcMac(t: Tables, k: Key, input: seq<byte>, iv: seq<byte>, last: array<byte>, out: array<byte>)
    requires ValidKey(k) && |iv| == 16 && last.Length == 16 && out.Length >= 16 && last != out
    modifies last, out
    ensures out[..] == Splice(old(out[..]), 0, ToBytes(MacBlock(t, k, ToBlock(iv), input, old(last[..]))))
  {
    hide Enc, EncIv, EncStep, ToBytes, Splice, ToBlock, Unfilled;
    ghost var v, stale, before := ToBlock(iv), last[..], out[..];
    var pIV := new word[4](_ => 0);
    Load(iv, pIV);
    NoBlocks(t, k, CBC, v);
    assert input[..0] == [];
    var at := 0;
    while |input| - at >= 16
      invariant 0 <= at <= |input| && at % 16 == 0 && out[..] == before && last[..] == stale
      invariant BlockOf(pIV[..]) == EncIv(t, k, CBC, v, input[..at])
    {
      ghost var a, d := input[..at], input[at..at + 16];
      assert input[..at + 16] == a + d;
      EncryptChained(t, k, input[at..at + 16], pIV);
      Chain(t, k, v, a, d, BlockOf(pIV[..]));
      at := at + 16;
    }
    CutIs(|input|, at);
    if |input| - at > 0 {
      var rest := input[at..];
      forall i | 0 <= i < |rest| {
        last[i] := rest[i];
      }
      LastIs(stale, last[..], rest);
      EncryptChained(t, k, last[..], pIV);
      StepIs(t, k, EncIv(t, k, CBC, v, input[..at]), last[..], BlockOf(pIV[..]));
    }
    assert out[..] == before;
    Store(BlockOf(pIV[..]), out, 0);
  }

  lemma Chain(t: Tables, k: Key, v: Block, a: seq<byte>, d: seq<byte>, c: Block)
    requires Whole(a) && |d| == 16 && c == EncryptBlock(t, k, Xor(ToBlock(d), EncIv(t, k, CBC, v, a)))
    ensures Whole(a + d) && EncIv(t, k, CBC, v, a + d) == c
  {
    hide Enc, EncIv, ToBlock, Xor, EncryptBlock;
    ExtendEnc(t, k, CBC, v, a, d, c);
  }

  lemma StepIs(t: Tables, k: Key, v: Block, d: seq<byte>, c: Block)
    requires |d| == 16 && c == EncryptBlock(t, k, Xor(ToBlock(d), v))
    ensures c == EncStep(t, k, CBC, v, d)
  {
    hide ToBlock, Xor, EncryptBlock;
  }

  lemma CutIs(n: nat, at: nat)
    requires at % 16 == 0 && at <= n < at + 16
    ensures Cut(n) == at
  {
  }

  lemma LastIs(stale: seq<byte>, last: seq<byte>, rest: seq<byte>)
    requires |stale| == 16 && |last| == 16 && |rest| < 16
    requires forall i :: 0 <= i < 16 ==> last[i] == if i < |rest| then rest[i] else stale[i]
    ensures last == Unfilled(rest, stale)
  {
  }

  /** A block cipher step can be undone, so different blocks give different results. */
  lemma StepInjective(t: Tables, k: Key, v: Block, a: seq<byte>, b: seq<byte>)
    requires ValidKey(k) && |a| == 16 && |b| == 16
    ensures EncStep(t, k, CBC, v, a) == EncStep(t, k, CBC, v, b) <==> a == b
  {
    hide ToBlock, Xor, Crypt, DecStep, ToBytes, Reverse;
    var k2 := Key(k.erk, Reverse(k.erk));
    StepRoundTrip(t, k2, CBC, v, a);
    StepRoundTrip(t, k2, CBC, v, b);
    assert EncStep(t, k, CBC, v, a) == EncStep(t, k2, CBC, v, a);
    assert EncStep(t, k, CBC, v, b) == EncStep(t, k2, CBC, v, b);
  }

  lemma BytesInjective(a: Block, b: Block)
    ensures ToBytes(a) == ToBytes(b) <==> a == b
  {
    hide ToBytes, ToBlock;
    BlockBytes(a);
    BlockBytes(b);
  }

  /**
    The one-shot MAC is the streaming MAC, however the message is cut, if and only if the message
    is whole blocks or the buffer happened to hold zeros behind the last bytes.
   */
  lemma MacAgreesExactly(t: Tables, k: Key, iv: Block, chunks: seq<seq<byte>>, stale: seq<byte>)
    requires ValidKey(k) && |stale| == 16
    ensures var data := Concat(chunks);
            var s1 := FeedTo(t, k, CBC, Mac, Stream(iv, []), chunks);
            var rest := |data| % 16;
            && |s1.pending| < 16
            && (ToBytes(MacBlock(t, k, iv, data, stale)) == FinalMac(t, k, CBC, s1)
                <==> rest == 0 || stale[rest..] == Fill(16 - rest, 0))
  {
    hide Enc, EncIv, EncStep, ToBytes, FeedTo, Padded, ZeroFilled, Unfilled, Fill;
    var data := Concat(chunks);
    var m := Cut(|data|);
    StreamMacs(t, k, CBC, iv, chunks);
    ZeroPaddedSplit(data, m);
    var v := EncIv(t, k, CBC, iv, data[..m]);
    BytesInjective(MacBlock(t, k, iv, data, stale), EncIv(t, k, CBC, iv, Padded(0, data)));
    if m < |data| {
      var rest := data[m..];
      LastChained(t, k, CBC, iv, data[..m], ZeroFilled(rest));
      StepInjective(t, k, v, Unfilled(rest, stale), ZeroFilled(rest));
      SameFill(rest, stale);
    }
  }

  lemma SameFill(rest: seq<byte>, stale: seq<byte>)
    requires |rest| < 16 && |stale| == 16
    ensures Unfilled(rest, stale) == ZeroFilled(rest) <==> stale[|rest|..] == Fill(16 - |rest|, 0)
  {
    assert Unfilled(rest, stale)[|rest|..] == stale[|rest|..];
    assert ZeroFilled(rest)[|rest|..] == Fill(16 - |rest|, 0);
  }
}
