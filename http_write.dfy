/**
 * The byte accounting of `write()`: the two `iovec`s that `process_write` sets
 * up (the reply head in the write buffer and the mapped file) and how `write`
 * moves them on after each `writev`. Pointers are offsets: `base0` into the write
 * buffer and `base1` into the file.
 */
module HttpWrite {

  /** `m_iv[0]` and `m_iv[1]` with `bytes_have_send` and `bytes_to_send`. */
  datatype Progress = Progress(base0: int, len0: int, base1: int, len1: int, haveSent: int, toSend: int)

  /** What `process_write` sets up for a head of `head` bytes and a file of `size` bytes. */
  function Start(head: int, size: int): Progress
  {
    Progress(0, head, 0, size, 0, head + size)
  }

  /**
   * The `iovec`s describe exactly the bytes not yet sent of the stream made of
   * the `head` bytes of the head followed by the `size` bytes of the file. With
   * no file (`size == 0`, a single `iovec`) the second one is not looked at.
   */
  predicate Unsent(p: Progress, head: nat, size: nat)
  {
    && 0 <= p.haveSent <= head + size
    && p.toSend == head + size - p.haveSent
    && (p.haveSent < head ==>
          p.base0 == p.haveSent && p.len0 == head - p.haveSent && (size > 0 ==> p.base1 == 0 && p.len1 == size))
    && (p.haveSent >= head ==>
          p.len0 == 0 && (size > 0 ==> p.base1 == p.haveSent - head && p.len1 == size - p.base1))
  }

  lemma StartUnsent(head: nat, size: nat)
    ensures Unsent(Start(head, size), head, size)
  {
  }

  /**
   * `write()` after `writev` reported `n` bytes, as the source writes it: the
   * head segment is cut by the whole count sent so far rather than by `n`, and
   * it is judged sent against its own shrunken length.
   */
  function AdvanceAsWritten(p: Progress, head: int, n: int): (q: Progress)
    ensures q.haveSent == p.haveSent + n && q.toSend == p.toSend - n
  {
    var have := p.haveSent + n;
    var toSend := p.toSend - n;
    if have >= p.len0 then Progress(p.base0, 0, have - head, toSend, have, toSend)
    else Progress(have, p.len0 - have, p.base1, p.len1, have, toSend)
  }

  /**
   * A 100-byte head and a 1000-byte file sent 30, then 20 bytes at a time: the
   * head is then described as 20 bytes long where 50 are left, so bytes 70 to 99
   * of it would never be sent, and a third write of 30 points the file segment
   * 20 bytes before the start of the file.
   */
  lemma AdvanceAsWrittenLosesBytes()
    ensures var p1 := AdvanceAsWritten(Start(100, 1000), 100, 30);
      var p2 := AdvanceAsWritten(p1, 100, 20);
      Unsent(p1, 100, 1000) && !Unsent(p2, 100, 1000) && p2.len0 == 20
      && AdvanceAsWritten(p2, 100, 30).base1 == -20
  {
  }

  /**
   * `write()` after `writev` reported `n` bytes, with the head judged sent
   * against its full length and cut to what is left of it.
   */
  function Advance(p: Progress, head: int, n: int): (q: Progress)
    ensures q.haveSent == p.haveSent + n && q.toSend == p.toSend - n
  {
    var have := p.haveSent + n;
    var toSend := p.toSend - n;
    if have >= head then Progress(p.base0, 0, have - head, toSend, have, toSend)
    else Progress(have, head - have, p.base1, p.len1, have, toSend)
  }

  /** Whatever `writev` takes of what is left, `Advance` keeps the `iovec`s on the unsent bytes. */
  lemma AdvanceUnsent(p: Progress, head: nat, size: nat, n: int)
    requires Unsent(p, head, size)
    requires 0 <= n <= p.toSend
    ensures Unsent(Advance(p, head, n), head, size)
  {
  }

  /** Once nothing is left to send, the stream has gone out in full. */
  lemma DoneAllSent(p: Progress, head: nat, size: nat)
    requires Unsent(p, head, size) && p.toSend <= 0
    ensures p.haveSent == head + size && p.len0 == 0 && (size > 0 ==> p.len1 == 0)
  {
  }
}
