/** The bounded body accumulator of the issuance path: the per-request context
    (`ngx_http_jwt_ctx_t`) whose buffer collects the response body, buffer by
    buffer, up to the capacity fixed by the header filter, one byte of which is
    kept for the NUL written before the body is handed to libjwt. */
module Accumulator {
  import opened Octets

  /** Values of `size_t` are taken modulo this. */
  const SizeRange: int := 0x1_0000_0000_0000_0000

  /** The body filter's bound check as written: a buffer of `size` bytes is
      copied at offset `pos` unless `pos + size > length - 1`, where
      `length - 1` is computed in `size_t`. */
  predicate FitsAsWritten(length: nat, pos: nat, size: nat)
    requires length < SizeRange
  {
    !(pos + size > (length - 1) % SizeRange)
  }

  /** The bound check as intended: the buffer and the terminating NUL both fit
      in a buffer of `length` bytes that already holds `pos` bytes. */
  predicate Fits(length: nat, pos: nat, size: nat) {
    pos + size < length
  }

  /** The two checks agree whenever the capacity is at least one byte, which
      every declared content length gives. */
  lemma FitsAgreesWithWrittenCheck(length: nat, pos: nat, size: nat)
    requires 1 <= length < SizeRange
    ensures FitsAsWritten(length, pos, size) == Fits(length, pos, size)
  {
  }

  /** With a capacity of zero (a chunked response and `jwt_issue_buffer_size 0`)
      `length - 1` wraps to the largest `size_t`, so the check as written lets
      a buffer of any size be copied into a zero-byte allocation. */
  lemma ZeroCapacityWrapsAround(size: nat)
    requires 1 <= size < SizeRange
    ensures FitsAsWritten(0, 0, size)
    ensures !Fits(0, 0, size)
  {
  }

  /** The concatenated bytes of a chain of buffers. */
  function Flatten(chain: seq<seq<byte>>): (r: seq<byte>)
    decreases |chain|
  {
    if chain == [] then [] else chain[0] + Flatten(chain[1..])
  }

  lemma {:induction false} FlattenAppend(a: seq<seq<byte>>, b: seq<seq<byte>>)
    ensures Flatten(a + b) == Flatten(a) + Flatten(b)
    decreases |a|
  {
    if a != [] {
      assert (a + b)[1..] == a[1..] + b;
      FlattenAppend(a[1..], b);
    } else {
      assert a + b == b;
    }
  }

  lemma FlattenOne(x: seq<byte>)
    ensures Flatten([x]) == x
  {
    assert [x][1..] == [];
  }

  /** The result of offering a chain of buffers to the accumulator: the
      accumulated bytes, how many buffers were copied, and whether a buffer
      was refused for lack of room. */
  datatype Fill = Fill(contents: seq<byte>, copied: nat, overflow: bool)

  /** Offering the buffers `chain` to an accumulator of capacity `length` that
      holds `contents`, as the body filter's loop does. */
  function Absorbed(length: nat, contents: seq<byte>, chain: seq<seq<byte>>): (r: Fill)
    ensures r.copied <= |chain| && (r.overflow <==> r.copied < |chain|)
    ensures contents <= r.contents
    decreases |chain|
  {
    if chain == [] then Fill(contents, 0, false)
    else if !Fits(length, |contents|, |chain[0]|) then Fill(contents, 0, true)
    else
      var r := Absorbed(length, contents + chain[0], chain[1..]);
      Fill(r.contents, r.copied + 1, r.overflow)
  }

  /** What offering a chain does: the buffers before the first one that does not
      fit are appended in order and exactly, that one and the rest are not,
      and whatever was accepted leaves room for the NUL. */
  lemma {:induction false} AbsorbedAppendsPrefix(length: nat, contents: seq<byte>, chain: seq<seq<byte>>)
    ensures var r := Absorbed(length, contents, chain);
            && r.copied <= |chain|
            && (r.overflow <==> r.copied < |chain|)
            && r.contents == contents + Flatten(chain[..r.copied])
            && (r.overflow ==> !Fits(length, |r.contents|, |chain[r.copied]|))
            && (r.copied > 0 ==> |r.contents| < length)
    decreases |chain|
  {
    if chain != [] && Fits(length, |contents|, |chain[0]|) {
      var r := Absorbed(length, contents + chain[0], chain[1..]);
      AbsorbedAppendsPrefix(length, contents + chain[0], chain[1..]);
      assert chain[..r.copied + 1] == [chain[0]] + chain[1..][..r.copied];
      FlattenAppend([chain[0]], chain[1..][..r.copied]);
      FlattenOne(chain[0]);
    } else {
      assert chain[..0] == [];
    }
  }

  /** A chain is accepted in full exactly when the bytes already held, all of
      its bytes and the NUL fit, however the bytes are split into buffers. */
  lemma {:induction false} AbsorbedAcceptsIffFits(length: nat, contents: seq<byte>, chain: seq<seq<byte>>)
    requires |chain| > 0
    ensures !Absorbed(length, contents, chain).overflow <==> |contents| + |Flatten(chain)| < length
    decreases |chain|
  {
    FlattenAppend([chain[0]], chain[1..]);
    FlattenOne(chain[0]);
    assert chain == [chain[0]] + chain[1..];
    if Fits(length, |contents|, |chain[0]|) && |chain| > 1 {
      AbsorbedAcceptsIffFits(length, contents + chain[0], chain[1..]);
    }
  }

  /** Buffers may arrive in several calls of the body filter: offering one chain
      and then another, when the first is accepted, is offering their
      concatenation. */
  lemma {:induction false} AbsorbedSplit(length: nat, contents: seq<byte>, a: seq<seq<byte>>, b: seq<seq<byte>>)
    requires !Absorbed(length, contents, a).overflow
    ensures var first := Absorbed(length, contents, a);
            var second := Absorbed(length, first.contents, b);
            Absorbed(length, contents, a + b) == Fill(second.contents, |a| + second.copied, second.overflow)
    decreases |a|
  {
    if a != [] {
      assert (a + b)[0] == a[0] && (a + b)[1..] == a[1..] + b;
      AbsorbedSplit(length, contents + a[0], a[1..], b);
    } else {
      assert a + b == b;
    }
  }

  /** `f` seen after `k` buffers were already accepted. */
  function After(k: nat, f: Fill): Fill {
    Fill(f.contents, k + f.copied, f.overflow)
  }

  /** Offering a chain whose first `i` buffers are accepted is accepting them
      and then offering the rest. */
  lemma {:induction false} AbsorbedDrop(length: nat, contents: seq<byte>, chain: seq<seq<byte>>, i: nat)
    requires i <= Absorbed(length, contents, chain).copied
    ensures i <= |chain|
    ensures Absorbed(length, contents, chain) ==
            After(i, Absorbed(length, contents + Flatten(chain[..i]), chain[i..]))
    decreases i
  {
    AbsorbedAppendsPrefix(length, contents, chain);
    if i == 0 {
      assert chain[..0] == [] && chain[0..] == chain && contents + [] == contents;
    } else {
      AbsorbedDrop(length, contents + chain[0], chain[1..], i - 1);
      assert chain[1..][i - 1..] == chain[i..];
      assert chain[..i] == [chain[0]] + chain[1..][..i - 1];
      FlattenAppend([chain[0]], chain[1..][..i - 1]);
      FlattenOne(chain[0]);
      assert contents + chain[0] + Flatten(chain[1..][..i - 1]) == contents + Flatten(chain[..i]);
    }
  }

  /** A buffer among the accepted ones fits after the ones before it, and
      extends the accepted bytes by its own. */
  lemma StepFits(length: nat, held: seq<byte>, chain: seq<seq<byte>>, i: nat)
    requires i < Absorbed(length, held, chain).copied
    ensures i < |chain| && Fits(length, |held + Flatten(chain[..i])|, |chain[i]|)
    ensures held + Flatten(chain[..i + 1]) == held + Flatten(chain[..i]) + chain[i]
  {
    AbsorbedDrop(length, held, chain, i);
    assert chain[i..][0] == chain[i] && chain[i..][1..] == chain[i + 1..];
    assert chain[..i + 1] == chain[..i] + [chain[i]];
    FlattenAppend(chain[..i], [chain[i]]);
    FlattenOne(chain[i]);
  }

  /** The course of offering `chain`: `acc[k]` is what the accumulator holds
      once `k` buffers are accepted. */
  lemma Plan(length: nat, held: seq<byte>, chain: seq<seq<byte>>) returns (f: Fill, acc: seq<seq<byte>>)
    ensures f == Absorbed(length, held, chain)
    ensures f.copied <= |chain| && |acc| == f.copied + 1
    ensures acc[0] == held && acc[f.copied] == f.contents
    ensures forall k :: 0 <= k < f.copied ==> Fits(length, |acc[k]|, |chain[k]|) && acc[k + 1] == acc[k] + chain[k]
    ensures f.overflow <==> f.copied < |chain|
    ensures f.overflow ==> !Fits(length, |f.contents|, |chain[f.copied]|)
  {
    f := Absorbed(length, held, chain);
    AbsorbedAppendsPrefix(length, held, chain);
    acc := seq(f.copied + 1, k requires 0 <= k <= f.copied => held + Flatten(chain[..k]));
    forall k | 0 <= k < f.copied
      ensures Fits(length, |acc[k]|, |chain[k]|) && acc[k + 1] == acc[k] + chain[k]
    {
      StepFits(length, held, chain, k);
    }
    assert chain[..0] == [];
  }

  /** A chain of in-memory buffers (`ngx_chain_t` with its `ngx_buf_t`s): the
      memory of each buffer, its `last_buf` flag, and its `pos`, kept as an
      offset into that memory, which the body filter advances. */
  class Chain {
    /** Each buffer's memory, from `start` to `last`. */
    const mem: seq<seq<byte>>
    /** Each buffer's `last_buf` flag: no body data follows it. */
    const lastBuf: seq<bool>
    /** Each buffer's `pos`: the first byte not yet consumed. */
    var pos: seq<nat>

    /** A non-NULL chain has at least one link, and every `pos` lies within its
        buffer. */
    ghost predicate Valid()
      reads this
    {
      && 0 < |mem| && |lastBuf| == |mem| && |pos| == |mem|
      && forall i :: 0 <= i < |mem| ==> pos[i] <= |mem[i]|
    }

    /** The bytes `ngx_buf_size` counts, buffer by buffer. */
    function Pending(): (r: seq<seq<byte>>)
      reads this
      requires Valid()
      ensures |r| == |mem| && forall i :: 0 <= i < |mem| ==> r[i] == mem[i][pos[i]..]
    {
      var p := pos;
      seq(|mem|, i requires 0 <= i < |mem| => mem[i][p[i]..])
    }

    /** Whether the chain's final buffer is flagged `last_buf`. */
    function Ends(): bool
      reads this
      requires Valid()
    {
      lastBuf[|mem| - 1]
    }

    constructor (mem: seq<seq<byte>>, lastBuf: seq<bool>)
      requires 0 < |mem| && |lastBuf| == |mem|
      ensures this.mem == mem && this.lastBuf == lastBuf
      ensures Valid() && Pending() == mem && forall i :: 0 <= i < |mem| ==> pos[i] == 0
    {
      this.mem, this.lastBuf := mem, lastBuf;
      pos := seq(|mem|, i => 0);
    }
  }

  /** The positions of a chain after an offer described by `f`: the buffers
      copied are consumed to their end, the others are as they were. */
  ghost predicate Consumed(chain: Chain, before: seq<nat>, f: Fill)
    reads chain
  {
    && |before| == |chain.pos| == |chain.mem|
    && forall j :: 0 <= j < |chain.mem| ==>
         chain.pos[j] == if j < f.copied then |chain.mem[j]| else before[j]
  }

  /** What one call of the body filter's loop reports. */
  datatype Absorption =
    | NeedMore   // every buffer copied, the last one not flagged `last_buf`
    | Complete   // every buffer copied and the last one flagged `last_buf`
    | Overflow   // a buffer did not fit; it and the ones after it were not copied

  /** `memcpy` of `src` into `dst` at offset `at`. */
  method Copy(dst: array<byte>, at: nat, src: seq<byte>)
    requires at + |src| <= dst.Length
    modifies dst
    ensures dst[..at + |src|] == old(dst[..at]) + src
    ensures dst[at + |src|..] == old(dst[at + |src|..])
  {
    var k := 0;
    while k < |src|
      invariant 0 <= k <= |src|
      invariant dst[..at + k] == old(dst[..at]) + src[..k]
      invariant dst[at + |src|..] == old(dst[at + |src|..])
    {
      dst[at + k] := src[k];
      k := k + 1;
    }
  }

  /** The per-request context: the capacity `length` fixed by the header
      filter, the buffer `body` allocated by the first body filter call, and the
      write cursor `last`, kept here as an offset into `body`. */
  class Context {
    var length: nat
    var body: array?<byte>
    var last: nat

    ghost predicate Valid()
      reads this
    {
      (body == null ==> last == 0) &&
      (body != null ==> body.Length == length && (last == 0 || last < length))
    }

    /** The bytes accumulated so far. */
    function Contents(): (r: seq<byte>)
      reads this, body
      requires Valid()
    {
      if body == null then [] else body[..last]
    }

    /** The context the header filter creates, holding nothing yet. */
    constructor (length: nat)
      ensures Valid() && this.length == length && body == null && Contents() == []
    {
      this.length, body, last := length, null, 0;
    }

    /** The body filter's accumulation: the buffer is allocated on the first
        call, then the chain's buffers are collected into it. */
    method Absorb(chain: Chain) returns (o: Absorption)
      requires Valid() && chain.Valid()
      modifies this, body, chain
      ensures Valid() && length == old(length) && body != null
      ensures old(body) == null ==> fresh(body)
      ensures old(body) != null ==> body == old(body)
      ensures chain.Valid() && Consumed(chain, old(chain.pos), Absorbed(length, old(Contents()), old(chain.Pending())))
      ensures var f := Absorbed(length, old(Contents()), old(chain.Pending()));
              && Contents() == f.contents
              && o == (if f.overflow then Overflow else if chain.Ends() then Complete else NeedMore)
    {
      if body == null {
        body := new byte[length];
        last := 0;
        assert body[..0] == [];
      }
      o := Collect(chain);
    }

    /** The copying loop of the body filter: each buffer is checked against the
        capacity before it is copied, so a refused buffer leaves the ones before
        it copied and consumed. */
    method Collect(chain: Chain) returns (o: Absorption)
      requires Valid() && body != null && chain.Valid()
      modifies this`last, body, chain`pos
      ensures Valid() && chain.Valid()
      ensures Consumed(chain, old(chain.pos), Absorbed(length, old(Contents()), old(chain.Pending())))
      ensures var f := Absorbed(length, old(Contents()), old(chain.Pending()));
              && Contents() == f.contents
              && o == (if f.overflow then Overflow else if chain.Ends() then Complete else NeedMore)
    {
      ghost var pend := chain.Pending();
      ghost var f, acc := Plan(length, Contents(), pend);
      var i := 0;
      while i < |chain.mem|
        invariant 0 <= i <= |chain.mem| && i <= f.copied
        invariant Valid() && chain.Valid()
        invariant forall j :: 0 <= j < |chain.mem| ==>
                    chain.pos[j] == if j < i then |chain.mem[j]| else old(chain.pos[j])
        invariant Contents() == acc[i]
      {
        if !Fits(length, last, |chain.mem[i]| - chain.pos[i]) {
          return Overflow;
        }
        Take(chain, i);
        i := i + 1;
      }
      o := if chain.Ends() then Complete else NeedMore;
    }

    /** Copies the pending bytes of buffer `i` at the cursor, advances the
        cursor past them and consumes the buffer. */
    method Take(chain: Chain, i: nat)
      requires Valid() && body != null && chain.Valid() && i < |chain.mem|
      requires Fits(length, last, |chain.mem[i]| - chain.pos[i])
      modifies this`last, body, chain`pos
      ensures Valid() && body == old(body) && chain.Valid()
      ensures Contents() == old(Contents()) + old(chain.mem[i][chain.pos[i]..])
      ensures chain.pos == old(chain.pos)[i := |chain.mem[i]|]
    {
      Copy(body, last, chain.mem[i][chain.pos[i]..]);
      last := last + |chain.mem[i]| - chain.pos[i];
      chain.pos := chain.pos[i := |chain.mem[i]|];
    }

    /** `*(ctx->last) = '\0'`: the NUL written at the cursor before the body is
        handed to libjwt as a C string. In bounds because the cursor stays
        below the capacity once anything has been accepted. */
    method Terminate()
      requires Valid() && body != null && last < length
      modifies body
      ensures Valid() && Contents() == old(Contents())
      ensures body[..last + 1] == Contents() + [0]
      ensures CStr(body[..last + 1]) == CStr(Contents())
    {
      body[last] := 0;
      CStrTerminated(body[..last]);
      assert body[..last + 1] == body[..last] + [0];
    }
  }
}
