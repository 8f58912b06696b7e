/**
 * chunk_return and its closure struct ChunkContext
 * (src/tests/client_server/libtest_convenience_server_reply.c): a pull-style
 * content reader that hands out a text piece by piece, each piece ending
 * right after a space when it fits in the buffer.
 */
module ChunkReader {
  import opened TextSplit
  import opened ReplyActions

  /**
   * How many bytes one call copies from the remaining text rest into a buffer of
   * max bytes: up to and including the first space, and never more than max.
   */
  function ChunkLen(rest: string, max: nat): (n: nat)
    requires rest != []
    ensures n <= max && n <= |rest|
    ensures max > 0 ==> n > 0
  {
    var imax := match FirstIndexOf(rest, ' ')
      case None => |rest|
      case Some(k) => k + 1;
    if imax > max then max else imax
  }

  /**
   * A chunk holds no space except possibly its last byte, and when it is shorter
   * than both the buffer and the remaining text, it ends right after a space.
   */
  lemma ChunkEndsAfterFirstSpace(rest: string, max: nat)
    requires rest != []
    ensures var n := ChunkLen(rest, max);
      && (forall j :: 0 <= j < n - 1 ==> rest[j] != ' ')
      && (n < |rest| && n < max ==> 0 < n && rest[n - 1] == ' ')
  {
  }

  lemma ConcatCons(head: string, tail: seq<string>)
    ensures Concat([head] + tail) == head + Concat(tail)
  {
    assert ([head] + tail)[1..] == tail;
  }

  /** The chunks repeated calls hand out from rest onwards, until the finish action. */
  function Chunks(rest: string, max: nat): seq<string>
    requires max > 0
    decreases |rest|
  {
    if rest == [] then []
    else
      var n := ChunkLen(rest, max);
      [rest[..n]] + Chunks(rest[n..], max)
  }

  /**
   * Together the chunks are exactly the remaining text: nothing is lost,
   * repeated or reordered.
   */
  lemma {:induction false} ChunksCoverText(rest: string, max: nat)
    requires max > 0
    ensures Concat(Chunks(rest, max)) == rest
    decreases |rest|
  {
    if rest != [] {
      var n := ChunkLen(rest, max);
      var head, more := rest[..n], rest[n..];
      assert Chunks(rest, max) == [head] + Chunks(more, max);
      ChunksCoverText(more, max);
      ConcatCons(head, Chunks(more, max));
      assert head + more == rest;
    }
  }

  /** Every chunk is non-empty and fits in the buffer. */
  lemma {:induction false} ChunksFitBuffer(rest: string, max: nat, i: nat)
    requires max > 0
    requires i < |Chunks(rest, max)|
    ensures 0 < |Chunks(rest, max)[i]| <= max
    decreases |rest|
  {
    var n := ChunkLen(rest, max);
    if i > 0 {
      ChunksFitBuffer(rest[n..], max, i - 1);
    }
  }

  /** struct ChunkContext: the text being returned and the cursor into it. */
  class ChunkContext {
    /** The 0-terminated text, without its terminator (so it holds no NUL). */
    const text: string
    /** cc->pos, as an offset into text. */
    var pos: nat

    ghost predicate Valid()
      reads this
    {
      pos <= |text|
    }

    /** The closure MHDT_server_reply_chunked_text creates: the cursor at the start. */
    constructor (text: string)
      requires '\0' !in text
      ensures Valid()
      ensures this.text == text && pos == 0
    {
      this.text := text;
      pos := 0;
    }

    /**
     * chunk_return. The position argument the library passes is not used by the
     * source and is left out; the cursor itself is the sum of the sizes reported
     * so far.
     */
    method ChunkReturn(max: nat) returns (act: DccAction, buf: string)
      requires Valid()
      modifies this`pos
      ensures Valid()
      ensures old(pos) == |text| ==> act == DccFinish && buf == [] && pos == old(pos)
      ensures old(pos) < |text| ==>
        && act == DccContinue(|buf|)
        && pos == old(pos) + |buf|
        && buf == text[old(pos)..pos]
        && |buf| == ChunkLen(text[old(pos)..], max)
      ensures max > 0 ==> Chunks(text[old(pos)..], max) == (if buf == [] then [] else [buf]) + Chunks(text[pos..], max)
    {
      var rest := text[pos..];
      var imax := |rest|;
      if imax == 0 {
        return DccFinish, [];
      }
      var space := FirstIndexOf(rest, ' ');
      if space.Some? {
        imax := space.value + 1;
      }
      if imax > max {
        imax := max;
      }
      buf := rest[..imax];
      pos := pos + imax;
      act := DccContinue(imax);
      assert rest[imax..] == text[pos..];
    }
  }
}
