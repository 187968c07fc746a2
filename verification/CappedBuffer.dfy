/** The output buffer of the subprocess runner: it keeps the first cap bytes and swallows the rest. */
module CappedBuffer {

  function Concat(chunks: seq<seq<bv8>>): seq<bv8> {
    if chunks == [] then [] else Concat(chunks[..|chunks| - 1]) + chunks[|chunks| - 1]
  }

  /** Some write arrives empty when the buffer is already full. */
  predicate EmptyWhenFull(chunks: seq<seq<bv8>>, cap: nat) {
    exists i :: 0 <= i < |chunks| && chunks[i] == [] && |Concat(chunks[..i])| >= cap
  }

  class Buffer {
    var bytes: seq<bv8>
    const cap: nat
    var truncated: bool

    ghost var history: seq<seq<bv8>>

    /** Content and flag after the writes in history, whatever their sizes. */
    ghost predicate Valid()
      reads this
    {
      && bytes <= Concat(history) && |bytes| == (if |Concat(history)| > cap then cap else |Concat(history)|)
      && (truncated <==> |Concat(history)| > cap || EmptyWhenFull(history, cap))
    }

    constructor (cap: nat)
      ensures Valid() && this.cap == cap && history == []
    {
      bytes, truncated, history := [], false, [];
      this.cap := cap;
    }

    method Write(p: seq<bv8>) returns (n: nat)
      requires Valid()
      modifies this
      ensures Valid() && history == old(history) + [p]
      ensures n == |p|
    {
      OneMoreWrite(history, p, cap);
      ghost var before := history;
      history := history + [p];
      if truncated {
        if EmptyWhenFull(before, cap) {
          ghost var i :| 0 <= i < |before| && before[i] == [] && |Concat(before[..i])| >= cap;
          FullStaysFull(before, i);
        }
        return |p|;
      }
      var remaining := cap - |bytes|;
      if remaining <= 0 {
        truncated := true;
        return |p|;
      }
      if |p| > remaining {
        bytes := bytes + p[..remaining];
        truncated := true;
        return |p|;
      }
      bytes := bytes + p;
      return |p|;
    }
  }

  lemma OneMoreWrite(chunks: seq<seq<bv8>>, p: seq<bv8>, cap: nat)
    ensures Concat(chunks + [p]) == Concat(chunks) + p
    ensures EmptyWhenFull(chunks + [p], cap) <==> EmptyWhenFull(chunks, cap) || (p == [] && |Concat(chunks)| >= cap)
  {
    var all := chunks + [p];
    assert all[..|chunks|] == chunks;
    assert forall i :: 0 <= i < |chunks| ==> all[i] == chunks[i] && all[..i] == chunks[..i];
    if EmptyWhenFull(chunks, cap) {
      var i :| 0 <= i < |chunks| && chunks[i] == [] && |Concat(chunks[..i])| >= cap;
      assert all[i] == [] && |Concat(all[..i])| >= cap;
    }
    if p == [] && |Concat(chunks)| >= cap {
      assert all[|chunks|] == [] && |Concat(all[..|chunks|])| >= cap;
    }
  }

  /** Only a full buffer turns an empty write into an overflow. */
  lemma {:induction false} FullStaysFull(chunks: seq<seq<bv8>>, i: nat)
    requires i <= |chunks|
    ensures |Concat(chunks[..i])| <= |Concat(chunks)|
  {
    if i == |chunks| {
      assert chunks[..i] == chunks;
    } else {
      var front := chunks[..|chunks| - 1];
      assert front[..i] == chunks[..i];
      FullStaysFull(front, i);
    }
  }

  datatype Captured = Captured(bytes: seq<bv8>, truncated: bool)

  /** A whole stream written to a fresh buffer. */
  method Capture(chunks: seq<seq<bv8>>, cap: nat) returns (r: Captured)
    ensures r.bytes <= Concat(chunks)
    ensures |r.bytes| == if |Concat(chunks)| > cap then cap else |Concat(chunks)|
    ensures r.truncated <==> |Concat(chunks)| > cap || EmptyWhenFull(chunks, cap)
  {
    var b := new Buffer(cap);
    for i := 0 to |chunks|
      invariant fresh(b) && b.Valid() && b.cap == cap && b.history == chunks[..i]
    {
      var n := b.Write(chunks[i]);
      assert chunks[..i + 1] == chunks[..i] + [chunks[i]];
    }
    assert chunks[..|chunks|] == chunks;
    return Captured(b.bytes, b.truncated);
  }

  /** What the buffer ends up with, as a function of the chunks. */
  ghost function Outcome(chunks: seq<seq<bv8>>, cap: nat): Captured {
    Captured(if |Concat(chunks)| > cap then Concat(chunks)[..cap] else Concat(chunks),
             |Concat(chunks)| > cap || EmptyWhenFull(chunks, cap))
  }

  /**
   * How the stream was cut into non-empty writes makes no difference, and the flag says exactly that
   * something was dropped.
   */
  lemma ChunkingIrrelevant(a: seq<seq<bv8>>, b: seq<seq<bv8>>, cap: nat)
    requires Concat(a) == Concat(b)
    requires forall i :: 0 <= i < |a| ==> a[i] != []
    requires forall i :: 0 <= i < |b| ==> b[i] != []
    ensures Outcome(a, cap) == Outcome(b, cap)
    ensures Outcome(a, cap).truncated <==> |Concat(a)| > cap
    ensures Outcome(a, cap).truncated <==> Outcome(a, cap).bytes != Concat(a)
  {
    assert Concat(a)[..|Concat(a)|] == Concat(a);
  }

  /** With empty writes the flag can be set although nothing was dropped. */
  lemma EmptyWriteTruncates(x: bv8)
    ensures Outcome([[x], []], 1) == Captured([x], true) && Concat([[x], []]) == [x]
  {
    var chunks: seq<seq<bv8>> := [[x], []];
    assert chunks[..1] == [[x]] && [[x]][..0] == [];
    assert Concat([[x]]) == [] + [x];
    assert Concat(chunks) == [x] + [];
    assert chunks[1] == [] && |Concat(chunks[..1])| >= 1;
  }
}
