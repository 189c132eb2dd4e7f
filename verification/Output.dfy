/** The growing output buffer (util.hpp, OutBuf) and what a run of "pad to an offset, append" leaves in it. */
module Output {
  import opened Bytes

  /** Content and the file offset planned for it. */
  datatype Piece = Piece(at: nat, bytes: seq<byte>)

  function Zeros(n: nat): (z: seq<byte>)
    ensures |z| == n && forall i :: 0 <= i < n ==> z[i] == 0
  {
    seq(n, _ => 0)
  }

  /** pad_to_size: zeros up to the target, nothing if already there or past it. */
  function Padded(out: seq<byte>, target: nat): (r: seq<byte>)
    ensures |r| == if |out| < target then target else |out|
    ensures r[..|out|] == out
  {
    if |out| < target then out + Zeros(target - |out|) else out
  }

  function Emit(out: seq<byte>, ps: seq<Piece>): seq<byte>
    decreases |ps|
  {
    if ps == [] then out else Emit(Padded(out, ps[0].at) + ps[0].bytes, ps[1..])
  }

  /** Every piece starts at or past the end of what is written before it. */
  ghost predicate Ordered(n: nat, ps: seq<Piece>)
    decreases |ps|
  {
    ps == [] || (n <= ps[0].at && Ordered(ps[0].at + |ps[0].bytes|, ps[1..]))
  }

  ghost function EndOf(n: nat, ps: seq<Piece>): nat
    decreases |ps|
  {
    if ps == [] then n else EndOf(ps[0].at + |ps[0].bytes|, ps[1..])
  }

  ghost predicate Placed(file: seq<byte>, q: Piece) {
    q.at + |q.bytes| <= |file| && file[q.at..q.at + |q.bytes|] == q.bytes
  }

  lemma {:induction false} EmitKeeps(out: seq<byte>, ps: seq<Piece>)
    ensures |out| <= |Emit(out, ps)| && Emit(out, ps)[..|out|] == out
    decreases |ps|
  {
    if ps != [] {
      var mid := Padded(out, ps[0].at) + ps[0].bytes;
      EmitKeeps(mid, ps[1..]);
      assert mid[..|out|] == out;
      assert Emit(out, ps)[..|mid|][..|out|] == Emit(out, ps)[..|out|];
    }
  }

  /** When no offset is passed before its piece is due, each piece is in the file at its offset. */
  lemma {:induction false} EmitPlaces(out: seq<byte>, ps: seq<Piece>, i: nat)
    requires Ordered(|out|, ps) && i < |ps|
    ensures Placed(Emit(out, ps), ps[i])
    decreases |ps|
  {
    var q := ps[0];
    var pad := Padded(out, q.at);
    var mid := pad + q.bytes;
    if i == 0 {
      EmitKeeps(mid, ps[1..]);
      var file := Emit(out, ps);
      assert file[..|mid|] == mid;
      assert file[q.at..|mid|] == mid[q.at..];
    } else {
      EmitPlaces(mid, ps[1..], i - 1);
    }
  }

  /** Between two consecutive pieces there are zeros. */
  lemma {:induction false} EmitGap(out: seq<byte>, ps: seq<Piece>, i: nat)
    requires Ordered(|out|, ps) && i + 1 < |ps|
    ensures var e := ps[i].at + |ps[i].bytes|;
      && e <= ps[i + 1].at <= |Emit(out, ps)|
      && Emit(out, ps)[e..ps[i + 1].at] == Zeros(ps[i + 1].at - e)
    decreases |ps|
  {
    var q := ps[0];
    var mid := Padded(out, q.at) + q.bytes;
    var rest := ps[1..];
    if i == 0 {
      var r := rest[0];
      assert r == ps[1] && |mid| <= r.at;
      var pad := Padded(mid, r.at);
      EmitKeeps(pad + r.bytes, rest[1..]);
      var file := Emit(out, ps);
      assert file == Emit(mid, rest) == Emit(pad + r.bytes, rest[1..]);
      assert file[..|pad + r.bytes|] == pad + r.bytes;
      assert file[|mid|..r.at] == pad[|mid|..r.at];
      assert pad[|mid|..r.at] == Zeros(r.at - |mid|);
    } else {
      EmitGap(mid, rest, i - 1);
    }
  }

  lemma {:induction false} EmitApp(out: seq<byte>, a: seq<Piece>, b: seq<Piece>)
    ensures Emit(out, a + b) == Emit(Emit(out, a), b)
    decreases |a|
  {
    if a == [] {
      assert a + b == b;
    } else {
      assert (a + b)[1..] == a[1..] + b;
      EmitApp(Padded(out, a[0].at) + a[0].bytes, a[1..], b);
    }
  }

  lemma EmitOne(out: seq<byte>, q: Piece)
    ensures Emit(out, [q]) == Padded(out, q.at) + q.bytes
  {
    assert [q][1..] == [];
  }

  lemma {:induction false} OrderedApp(n: nat, a: seq<Piece>, b: seq<Piece>)
    ensures Ordered(n, a + b) <==> Ordered(n, a) && Ordered(EndOf(n, a), b)
    ensures EndOf(n, a + b) == EndOf(EndOf(n, a), b)
    decreases |a|
  {
    if a == [] {
      assert a + b == b;
    } else {
      assert (a + b)[1..] == a[1..] + b;
      OrderedApp(a[0].at + |a[0].bytes|, a[1..], b);
    }
  }

  ghost predicate Before(a: Piece, b: Piece) { a.at + |a.bytes| <= b.at }

  /** Each piece ends before the next begins. */
  ghost predicate Chained(ps: seq<Piece>) {
    forall i, j :: 0 <= i < j < |ps| && j == i + 1 ==> Before(ps[i], ps[j])
  }

  lemma {:induction false} ChainedOrdered(n: nat, ps: seq<Piece>)
    requires Chained(ps) && ps != [] && n <= ps[0].at
    ensures Ordered(n, ps) && EndOf(n, ps) == ps[|ps| - 1].at + |ps[|ps| - 1].bytes|
    decreases |ps|
  {
    var rest := ps[1..];
    if rest != [] {
      assert Before(ps[0], ps[1]);
      ChainedOrdered(ps[0].at + |ps[0].bytes|, rest);
    }
  }

  lemma JoinOrdered(a: seq<Piece>, b: seq<Piece>, m: nat)
    requires Ordered(0, a) && EndOf(0, a) <= m && (b != [] ==> Chained(b) && m <= b[0].at)
    ensures Ordered(0, a + b)
    ensures EndOf(0, a + b) == if b == [] then EndOf(0, a) else b[|b| - 1].at + |b[|b| - 1].bytes|
  {
    hide Chained;
    OrderedApp(0, a, b);
    if b == [] { assert a + b == a; } else { ChainedOrdered(EndOf(0, a), b); }
  }

  /** The exact length of an ordered run. */
  lemma {:induction false} EmitLength(out: seq<byte>, ps: seq<Piece>)
    requires Ordered(|out|, ps)
    ensures |Emit(out, ps)| == EndOf(|out|, ps)
    decreases |ps|
  {
    if ps != [] { EmitLength(Padded(out, ps[0].at) + ps[0].bytes, ps[1..]); }
  }

  class OutBuf {
    var data: seq<byte>

    constructor ()
      ensures data == []
    {
      data := [];
    }

    method Append(b: seq<byte>)
      modifies this
      ensures data == old(data) + b
    {
      data := data + b;
    }

    method PadToSize(target: nat)
      modifies this
      ensures data == Padded(old(data), target)
    {
      while |data| < target
        invariant |old(data)| <= |data| && (|data| <= target || data == old(data))
        invariant data == old(data) + Zeros(|data| - |old(data)|)
      {
        data := data + [0];
      }
    }

    /** One planned piece, as the writer emits it. */
    method Put(at: nat, b: seq<byte>, ghost done: seq<Piece>)
      requires data == Emit([], done)
      modifies this
      ensures data == Emit([], done + [Piece(at, b)])
    {
      EmitApp([], done, [Piece(at, b)]);
      EmitOne(data, Piece(at, b));
      PadToSize(at);
      Append(b);
    }
  }
}
