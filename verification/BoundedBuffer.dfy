/** The buffer that keeps the tail of the reload command's output
    (server-agent/internal/certinstall/atomic.go). */
module BoundedBuffer {
  const HOOK_OUTPUT_CAP := 2048

  function Last<T>(s: seq<T>, n: nat): seq<T> {
    if |s| > n then s[|s| - n..] else s
  }

  /** `t` is the end of `s`, as much of it as fits into `cap`. */
  ghost predicate IsTail<T(!new)>(s: seq<T>, t: seq<T>, cap: nat) {
    && |t| == (if |s| < cap then |s| else cap)
    && forall i :: 0 <= i < |t| ==> t[i] == s[|s| - |t| + i]
  }

  class Buffer {
    var buf: seq<bv8>

    constructor ()
      ensures buf == []
    {
      buf := [];
    }

    method Write(p: seq<bv8>) returns (n: nat)
      modifies this
      ensures buf == Last(old(buf) + p, HOOK_OUTPUT_CAP) && n == |p|
      ensures IsTail(old(buf) + p, buf, 2048)
    {
      buf := buf + p;
      if |buf| > HOOK_OUTPUT_CAP {
        buf := buf[|buf| - HOOK_OUTPUT_CAP..];
      }
      n := |p|;
    }
  }

  /** The buffer after a series of writes. */
  function After<T>(writes: seq<seq<T>>, cap: nat): seq<T> {
    if writes == [] then []
    else Last(After(writes[..|writes| - 1], cap) + writes[|writes| - 1], cap)
  }

  function Stream<T>(writes: seq<seq<T>>): seq<T> {
    if writes == [] then [] else Stream(writes[..|writes| - 1]) + writes[|writes| - 1]
  }

  /** Trimming early loses nothing that trimming late would keep. */
  lemma TrimTwice<T>(s: seq<T>, p: seq<T>, cap: nat)
    ensures Last(Last(s, cap) + p, cap) == Last(s + p, cap)
  {
  }

  /** After any writes of any sizes the buffer is the end of the whole stream: trimming at every
      write is trimming once at the end. */
  lemma {:induction false} KeepsTheTail<T(!new)>(writes: seq<seq<T>>, cap: nat)
    ensures After(writes, cap) == Last(Stream(writes), cap)
    ensures IsTail(Stream(writes), After(writes, cap), cap)
  {
    if writes == [] {
    } else {
      var init := writes[..|writes| - 1];
      KeepsTheTail(init, cap);
      TrimTwice(Stream(init), writes[|writes| - 1], cap);
    }
  }

  /** A command that writes to a new buffer, in pieces of any size: every piece is taken whole, and
      in the end the buffer holds the tail of all of them. */
  method Capture(writes: seq<seq<bv8>>) returns (b: Buffer, taken: nat)
    ensures fresh(b) && IsTail(Stream(writes), b.buf, 2048)
    ensures taken == |Stream(writes)|
  {
    b := new Buffer();
    taken := 0;
    var i := 0;
    while i < |writes|
      invariant 0 <= i <= |writes| && fresh(b)
      invariant b.buf == After(writes[..i], HOOK_OUTPUT_CAP) && taken == |Stream(writes[..i])|
    {
      var n := b.Write(writes[i]);
      assert writes[..i + 1][..i] == writes[..i];
      taken := taken + n;
      i := i + 1;
    }
    assert writes[..i] == writes;
    KeepsTheTail(writes, HOOK_OUTPUT_CAP);
  }
}
