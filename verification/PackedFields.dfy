/** Repeated packed fields: validated by counting, then replayed by a cursor, without materialising their
    values (core/extract.go). */
module PackedFields {
  import opened Common
  import opened Varints

  datatype Error = UnexpectedEnd | VarintOverflow | LengthMismatch

  /** The values of a field as a reader meets them: to the end, or up to the first broken one. */
  datatype Stream = End | Broken(error: Error) | More(v: nat, rest: Stream)

  function ErrorOf(r: Read): Error
    requires !r.Value?
  {
    if r == Truncated then UnexpectedEnd else VarintOverflow
  }

  /** The stream from a position; a varint must finish within its own segment. */
  function StreamFrom(segs: seq<seq<Byte>>, seg: nat, pos: nat): Stream
    decreases |segs| - seg, if seg < |segs| then |segs[seg]| - pos else 0
  {
    if seg >= |segs| then End
    else if pos >= |segs[seg]| then StreamFrom(segs, seg + 1, 0)
    else
      ReadFits(segs[seg], pos);
      match ReadVarint(segs[seg], pos)
      case Value(v, next) => More(v, StreamFrom(segs, seg, next))
      case broken => Broken(ErrorOf(broken))
  }

  function StreamOf(segs: seq<seq<Byte>>): Stream {
    StreamFrom(segs, 0, 0)
  }

  function Whole(s: Stream): Option<seq<nat>> {
    match s
    case End => Some([])
    case Broken(_) => None
    case More(v, rest) => if Whole(rest).Some? then Some([v] + Whole(rest).value) else None
  }

  /** How counting ends: with the number of values, or with the first error. */
  datatype Count = Counted(n: nat) | Refused(error: Error)

  function CountOf(s: Stream, before: nat): Count {
    match s
    case End => Counted(before)
    case Broken(error) => Refused(error)
    case More(_, rest) => CountOf(rest, before + 1)
  }

  lemma {:induction false} CountIsLength(s: Stream, before: nat)
    ensures CountOf(s, before).Counted? <==> Whole(s).Some?
    ensures Whole(s).Some? ==> CountOf(s, before) == Counted(before + |Whole(s).value|)
  {
    match s
    case More(_, rest) => CountIsLength(rest, before + 1);
    case _ =>
  }

  // ---- Counting ----

  lemma {:induction false} ValueIgnored(b: seq<Byte>, i: nat, g: nat, x: nat, y: nat)
    ensures ReadFrom(b, i, g, x).Value? == ReadFrom(b, i, g, y).Value?
    ensures ReadFrom(b, i, g, x).Value? ==> ReadFrom(b, i, g, x).next == ReadFrom(b, i, g, y).next
    ensures !ReadFrom(b, i, g, x).Value? ==> ReadFrom(b, i, g, x) == ReadFrom(b, i, g, y)
    decreases |b| - i
  {
    hide Weight;
    if i < |b| && b[i] >= 128 && g < 9 {
      ValueIgnored(b, i + 1, g + 1, x + (b[i] - 128) * Weight(g), y + (b[i] - 128) * Weight(g));
    }
  }

  /** What the scan of one segment finds from `i` on, in the middle of a varint of `g` groups. */
  function ScanFrom(segs: seq<seq<Byte>>, seg: nat, i: nat, g: nat, n: nat): Count
    requires seg < |segs| && i <= |segs[seg]|
  {
    var r := ReadFrom(segs[seg], i, g, 0);
    if g == 0 && i == |segs[seg]| then CountOf(StreamFrom(segs, seg + 1, 0), n)
    else if r.Value? then CountOf(StreamFrom(segs, seg, r.next), n + 1)
    else Refused(ErrorOf(r))
  }

  lemma ScanStarts(segs: seq<seq<Byte>>, seg: nat, i: nat, n: nat)
    requires seg < |segs| && i <= |segs[seg]|
    ensures ScanFrom(segs, seg, i, 0, n) == CountOf(StreamFrom(segs, seg, i), n)
  {}

  lemma ScanStep(segs: seq<seq<Byte>>, seg: nat, i: nat, g: nat, n: nat)
    requires seg < |segs| && i < |segs[seg]| && g <= 9
    ensures var c := segs[seg][i];
      if c < 128 then
        ScanFrom(segs, seg, i, g, n) == if g == 9 && c > 1 then Refused(VarintOverflow)
          else ScanFrom(segs, seg, i + 1, 0, n + 1)
      else
        ScanFrom(segs, seg, i, g, n) == if g == 9 then Refused(VarintOverflow) else ScanFrom(segs, seg, i + 1, g + 1, n)
  {
    var b := segs[seg];
    hide Weight;
    hide CountOf;
    if b[i] < 128 {
      if !(g == 9 && b[i] > 1) {
        ScanStarts(segs, seg, i + 1, n + 1);
      }
    } else if g < 9 {
      ValueIgnored(b, i + 1, g + 1, 0 + (b[i] - 128) * Weight(g), 0);
    }
  }

  lemma ScanEnds(segs: seq<seq<Byte>>, seg: nat, g: nat, n: nat)
    requires seg < |segs|
    ensures ScanFrom(segs, seg, |segs[seg]|, g, n) ==
      if g == 0 then CountOf(StreamFrom(segs, seg + 1, 0), n) else Refused(UnexpectedEnd)
  {}

  /** Counts without decoding: succeeds with `n` exactly when a reader meets `n` values and no error. */
  method PackedValueCount(segs: seq<seq<Byte>>) returns (r: Count)
    ensures r == CountOf(StreamOf(segs), 0)
  {
    hide ScanFrom;
    var n: nat := 0;
    for seg := 0 to |segs|
      invariant CountOf(StreamFrom(segs, seg, 0), n) == CountOf(StreamOf(segs), 0)
    {
      var shift: nat := 0;
      ghost var g: nat := 0;
      ScanStarts(segs, seg, 0, n);
      for i := 0 to |segs[seg]|
        invariant shift == 7 * g && g <= 9
        invariant ScanFrom(segs, seg, i, g, n) == CountOf(StreamOf(segs), 0)
      {
        ScanStep(segs, seg, i, g, n);
        var c: nat := segs[seg][i];
        if c < 128 {
          if shift == 63 && c > 1 {
            return Refused(VarintOverflow);
          }
          n, shift, g := n + 1, 0, 0;
        } else {
          shift, g := shift + 7, g + 1;
          if shift >= 64 {
            return Refused(VarintOverflow);
          }
        }
      }
      ScanEnds(segs, seg, g, n);
      if shift != 0 {
        return Refused(UnexpectedEnd);
      }
    }
    r := Counted(n);
  }

  // ---- The cursor ----

  datatype Next = Got(v: nat) | AtEnd | Failed(error: Error)

  /** Walks the values of a field one by one. */
  class PackedCursor {
    const segs: seq<seq<Byte>>
    var seg: nat
    var pos: nat

    ghost predicate Valid()
      reads this
    {
      seg <= |segs| && pos <= (if seg < |segs| then |segs[seg]| else 0)
    }

    /** What is still to be read. */
    ghost function Rest(): Stream
      reads this
    {
      StreamFrom(segs, seg, pos)
    }

    constructor (segs: seq<seq<Byte>>)
      ensures Valid() && this.segs == segs && Rest() == StreamOf(segs)
    {
      this.segs := segs;
      seg, pos := 0, 0;
    }

    /** An independent cursor at the same place. */
    constructor Copy(other: PackedCursor)
      requires other.Valid()
      ensures Valid() && segs == other.segs && Rest() == other.Rest()
    {
      segs := other.segs;
      seg, pos := other.seg, other.pos;
    }

    method Read() returns (r: Next)
      requires Valid()
      modifies this
      ensures Valid()
      ensures match old(Rest())
        case End => r == AtEnd && Rest() == End
        case Broken(error) => r == Failed(error)
        case More(v, rest) => r == Got(v) && Rest() == rest
    {
      while seg < |segs| && pos == |segs[seg]|
        invariant Valid() && Rest() == old(Rest())
        decreases |segs| - seg
      {
        seg, pos := seg + 1, 0;
      }
      if seg == |segs| {
        return AtEnd;
      }
      var b := segs[seg];
      var c: nat := b[pos];
      ReadFits(b, pos);
      if c < 128 {
        pos := pos + 1;
        return Got(c);
      }
      var read := ReadUvarint(b, pos);
      match read {
        case Value(v, next) =>
          pos := next;
          r := Got(v);
        case broken =>
          r := Failed(ErrorOf(broken));
      }
    }
  }
}
