/** Binary frames on the browser's socket: shared/protocol.ts. */
module SliceWire {
  import opened Bytes

  const BIN_CHANNEL_DATA: byte := 1
  const BIN_CHANNEL_SLICE: byte := 2
  const BIN_HEADER_BYTES: nat := 5
  const SLICE_HEADER_BYTES: nat := 6
  const SLICE_BYTES: nat := 16 * 1024
  const CREDIT_WINDOW_START: nat := 64 * 1024
  const CREDIT_WINDOW_MIN: nat := SLICE_BYTES
  const CREDIT_WINDOW_MAX: nat := 512 * 1024
  const SLOW_PIECE_MS: int := 500
  const QUICK_PIECE_MS: int := 200

  datatype BinaryFrame = BinaryFrame(channelId: nat, payload: seq<byte>, partial: bool, sliced: bool)

  /** The bytes of one piece of a payload. */
  function SliceOf(channelId: nat, piece: seq<byte>, last: bool): seq<byte> {
    [BIN_CHANNEL_SLICE] + PutU32(channelId) + [if last then 1 else 0] + piece
  }

  /** The bytes of a payload that goes out whole. */
  function FrameOf(channelId: nat, payload: seq<byte>): seq<byte> {
    [BIN_CHANNEL_DATA] + PutU32(channelId) + payload
  }

  function DecodeBinaryFrame(buf: seq<byte>): Option<BinaryFrame> {
    if |buf| < BIN_HEADER_BYTES then None
    else
      var channelId := GetU32(buf[1..]);
      if buf[0] == BIN_CHANNEL_DATA then
        Some(BinaryFrame(channelId, buf[BIN_HEADER_BYTES..], false, false))
      else if buf[0] == BIN_CHANNEL_SLICE && |buf| >= SLICE_HEADER_BYTES then
        Some(BinaryFrame(channelId, buf[SLICE_HEADER_BYTES..], buf[5] == 0, true))
      else None
  }

  /** A slice read back: the id comes back modulo 2^32, the mark as `partial`. */
  lemma DecodeSlice(id: nat, piece: seq<byte>, last: bool)
    ensures |SliceOf(id, piece, last)| == SLICE_HEADER_BYTES + |piece|
    ensures DecodeBinaryFrame(SliceOf(id, piece, last)) == Some(BinaryFrame(id % TWO_32, piece, !last, true))
  {
    var buf := SliceOf(id, piece, last);
    assert buf[1..] == PutU32(id) + ([if last then 1 else 0] + piece);
    GetPutU32(id, [if last then 1 else 0] + piece);
    assert buf[SLICE_HEADER_BYTES..] == piece;
  }

  lemma DecodeFrame(id: nat, payload: seq<byte>)
    ensures |FrameOf(id, payload)| == BIN_HEADER_BYTES + |payload|
    ensures DecodeBinaryFrame(FrameOf(id, payload)) == Some(BinaryFrame(id % TWO_32, payload, false, false))
  {
    var buf := FrameOf(id, payload);
    assert buf[1..] == PutU32(id) + payload;
    GetPutU32(id, payload);
    assert buf[BIN_HEADER_BYTES..] == payload;
  }

  /** Fills a fresh array, header first, as the source does. */
  method EncodeSlice(channelId: nat, piece: seq<byte>, last: bool) returns (out: array<byte>)
    ensures fresh(out)
    ensures out[..] == SliceOf(channelId, piece, last)
  {
    out := new byte[SLICE_HEADER_BYTES + |piece|];
    out[0] := BIN_CHANNEL_SLICE;
    out[1] := channelId / 256 / 256 / 256 % 256;
    out[2] := channelId / 256 / 256 % 256;
    out[3] := channelId / 256 % 256;
    out[4] := channelId % 256;
    out[5] := if last then 1 else 0;
    forall i | 0 <= i < |piece| { out[SLICE_HEADER_BYTES + i] := piece[i]; }
    assert out[..] == SliceOf(channelId, piece, last);
  }

  method EncodeBinaryFrame(channelId: nat, payload: seq<byte>) returns (out: array<byte>)
    ensures fresh(out)
    ensures out[..] == FrameOf(channelId, payload)
  {
    out := new byte[BIN_HEADER_BYTES + |payload|];
    out[0] := BIN_CHANNEL_DATA;
    out[1] := channelId / 256 / 256 / 256 % 256;
    out[2] := channelId / 256 / 256 % 256;
    out[3] := channelId / 256 % 256;
    out[4] := channelId % 256;
    forall i | 0 <= i < |payload| { out[BIN_HEADER_BYTES + i] := payload[i]; }
    assert out[..] == FrameOf(channelId, payload);
  }

  /* ---- Putting pieces back together ---- */

  /** What a channel holds back; nothing and no pieces are alike. */
  function HeldFor(held: map<nat, seq<byte>>, id: nat): seq<byte> {
    if id in held then held[id] else []
  }

  /** The assembler on values: the bytes held per channel after `frame`, and a payload if one is whole. */
  function Assemble(held: map<nat, seq<byte>>, frame: BinaryFrame): (map<nat, seq<byte>>, Option<seq<byte>>) {
    var whole := HeldFor(held, frame.channelId) + frame.payload;
    if frame.partial then (held[frame.channelId := whole], None)
    else (held - {frame.channelId}, Some(whole))
  }

  class SliceAssembler {
    var held: map<nat, seq<seq<byte>>>

    ghost function View(): map<nat, seq<byte>>
      reads this
    {
      map id | id in held :: Concat(held[id])
    }

    constructor ()
      ensures View() == map[]
    {
      held := map[];
    }

    method Push(frame: BinaryFrame) returns (whole: Option<seq<byte>>)
      modifies this
      ensures (View(), whole) == Assemble(old(View()), frame)
    {
      var id := frame.channelId;
      ghost var kept := HeldFor(View(), id);
      if frame.partial {
        if id in held {
          ConcatSnoc(held[id], frame.payload);
          held := held[id := held[id] + [frame.payload]];
        } else {
          held := held[id := [frame.payload]];
          assert Concat(held[id]) == frame.payload == kept + frame.payload;
        }
        assert Concat(held[id]) == kept + frame.payload;
        assert View() == old(View())[id := kept + frame.payload];
        return None;
      }
      if id !in held {
        assert View() == View() - {id};
        assert kept + frame.payload == frame.payload;
        return Some(frame.payload);
      }
      var pieces := held[id];
      held := held - {id};
      assert View() == old(View()) - {id};
      ConcatSnoc(pieces, frame.payload);
      pieces := pieces + [frame.payload];
      var joined := Join(pieces);
      return Some(joined[..]);
    }

    /** Pieces of one channel are given up; those of others stay held. */
    method Forget(id: nat)
      modifies this
      ensures View() == old(View()) - {id}
    {
      held := held - {id};
    }

    method Clear()
      modifies this
      ensures View() == map[]
    {
      held := map[];
    }
  }

  /** Sums the lengths, then copies each piece to its place. */
  method Join(pieces: seq<seq<byte>>) returns (whole: array<byte>)
    ensures fresh(whole)
    ensures whole[..] == Concat(pieces)
  {
    var length := 0;
    for k := 0 to |pieces|
      invariant length == |Concat(pieces[..k])|
    {
      assert pieces[..k + 1] == pieces[..k] + [pieces[k]];
      ConcatSnoc(pieces[..k], pieces[k]);
      length := length + |pieces[k]|;
    }
    assert pieces[..|pieces|] == pieces;
    whole := new byte[length];
    var at := 0;
    for k := 0 to |pieces|
      invariant at == |Concat(pieces[..k])| <= length
      invariant whole.Length == length == |Concat(pieces)|
      invariant whole[..at] == Concat(pieces[..k])
    {
      assert pieces[..k + 1] == pieces[..k] + [pieces[k]];
      assert pieces == pieces[..k + 1] + pieces[k + 1..];
      ConcatSnoc(pieces[..k], pieces[k]);
      ConcatSplit(pieces[..k + 1], pieces[k + 1..]);
      ghost var before := whole[..at];
      forall i | 0 <= i < |pieces[k]| { whole[at + i] := pieces[k][i]; }
      assert whole[..at] == before;
      at := at + |pieces[k]|;
    }
  }
}
