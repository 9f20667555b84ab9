/** Chains of message pieces (include/vm/msg.h:11-15). */
module Messages {

  /** A piece: `len` bytes at the front of `msg`, which may be longer, and the piece behind it. `Nil`
      is the NULL pointer. */
  datatype Msg = Nil | Piece(len: int, msg: seq<int>, next: Msg)

  /** Every piece has at least one byte, and its allocation reaches over the pad byte that an odd
      piece is sent with: `malloc` rounds `8 + len` up to a multiple of 4, and data begins at 6. */
  predicate Sendable(m: Msg)
  {
    m.Piece? ==> m.len >= 1 && m.len + m.len % 2 <= |m.msg| && Sendable(m.next)
  }

  function Length(m: Msg): int
  {
    if m.Nil? then 0 else m.len + Length(m.next)
  }

  /** The bytes of the chain, piece by piece. */
  function Concat(m: Msg): seq<int>
    requires Sendable(m)
  {
    if m.Nil? then [] else m.msg[..m.len] + Concat(m.next)
  }

  /** Bytes that sending touches: the whole chain, and one more if its last piece is odd. */
  function Extent(m: Msg): int
  {
    if m.Nil? then 0
    else if m.next.Nil? then m.len + m.len % 2
    else m.len + Extent(m.next)
  }

  lemma {:induction false} ConcatLength(m: Msg)
    requires Sendable(m)
    ensures |Concat(m)| == Length(m) && 0 <= Length(m) <= Extent(m) <= Length(m) + 1
  {
    if m.Piece? { ConcatLength(m.next); }
  }

  lemma {:induction false} ExtentCovers(m: Msg)
    requires Sendable(m) && m.Piece?
    ensures m.len + m.len % 2 <= Extent(m)
  {
    if m.next.Piece? { ExtentCovers(m.next); }
  }

  /** The byte behind an odd last piece, which is sent along as padding. */
  function Pad(m: Msg): int
    requires Sendable(m) && m.Piece?
  {
    if m.next.Piece? then Pad(m.next) else if m.len < |m.msg| then m.msg[m.len] else 0
  }

  /** Length of the last piece. */
  function LastLength(m: Msg): int
    requires m.Piece?
  {
    if m.next.Piece? then LastLength(m.next) else m.len
  }

  /** Sending stays within `room` bytes exactly when the chain does, unless it fills the room to the
      last byte and ends in an odd piece. */
  lemma {:induction false} ExtentExact(m: Msg, room: int)
    requires Sendable(m) && m.Piece?
    ensures Extent(m) == Length(m) + LastLength(m) % 2
    ensures Extent(m) <= room <==> Length(m) <= room && (Length(m) == room ==> LastLength(m) % 2 == 0)
  {
    if m.next.Piece? { ExtentExact(m.next, room - m.len); }
  }

  /** A chain of just `room` bytes whose padding spills over, for every room. */
  lemma SpillExample(room: int)
    requires room >= 2
    ensures exists m :: Sendable(m) && m.Piece? && Length(m) == room && Extent(m) == room + 1
  {
    var last := Piece(1, [0, 0], Nil);
    var m := Piece(room - 1, seq(room, i => 0), last);
    assert Sendable(last) && Length(last) == 1 && Extent(last) == 2;
    assert Sendable(m) && Length(m) == room && Extent(m) == room + 1;
  }

  /** The rest of a chain starts with its first piece. */
  lemma PieceFirst(buf: Msg, m: Msg, count: nat)
    requires Sendable(buf) && Sendable(m) && m.Piece? && count + Length(m) == Length(buf) == |Concat(buf)|
    requires count <= |Concat(buf)| && Concat(buf)[count..] == Concat(m)
    ensures Length(m.next) >= 0
    ensures forall i :: 0 <= i < m.len ==> Concat(buf)[count + i] == m.msg[i]
    ensures Concat(buf)[count + m.len..] == Concat(m.next)
  {
    ConcatLength(m);
    ConcatLength(m.next);
    forall i | 0 <= i < m.len
      ensures Concat(buf)[count + i] == m.msg[i]
    {
      assert Concat(buf)[count..][i] == Concat(m)[i];
    }
    assert Concat(buf)[count + m.len..] == Concat(buf)[count..][m.len..];
  }
}
