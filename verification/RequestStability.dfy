/** The parser is run again each time the buffer has grown: what it answers once the request is
    complete does not change, and does not depend on how the bytes were split. */
module RequestStability {
  import opened Wrappers
  import opened RequestParser

  // ---------- One more chunk ----------

  lemma {:induction false} FindAppend(s: string, more: string)
    requires FindTerminator(s).Some?
    ensures FindTerminator(s + more) == FindTerminator(s)
    decreases |s|
  {
    if !StartsWithTerminator(s) {
      assert (s + more)[1..] == s[1..] + more;
      FindAppend(s[1..], more);
    }
  }

  /** The first complete terminator decides from which length on a prefix of the bytes is complete. */
  lemma {:induction false} CompletePrefix(all: string, n: nat)
    requires n <= |all|
    ensures FindTerminator(all[..n]) ==
            if IsComplete(all) && FindTerminator(all).value + 4 <= n then FindTerminator(all) else None
    decreases |all|
  {
    if n >= 4 && !StartsWithTerminator(all) {
      assert all[..n][1..] == all[1..][..n - 1];
      CompletePrefix(all[1..], n - 1);
    }
  }

  lemma {:induction false} LineAppend(s: string, more: string)
    requires '\n' in s
    ensures Line(s + more) == Line(s) && AfterLine(s + more) == AfterLine(s) + more
  {
    var n := LineEnd(s);
    assert (s + more)[n] == '\n';
    assert LineEnd(s + more) == n;
    assert (s + more)[..n] == s[..n];
    assert (s + more)[n + 1..] == s[n + 1..] + more;
  }

  /** The text starts with an empty line or contains one behind a line. */
  predicate HasEmptyLine(s: string) {
    StartsWithLineEnd(s) || IsComplete(s)
  }

  lemma {:induction false} AfterLineHasEmptyLine(s: string)
    requires IsComplete(s)
    ensures '\n' in s && HasEmptyLine(AfterLine(s))
    decreases |s|
  {
    if s[0] == '\n' {
      assert AfterLine(s) == s[1..];
    } else if StartsWithLineEnd(s) {
      assert AfterLine(s) == s[2..];
      assert s[1..][1..] == s[2..];
      if !StartsWithTerminator(s) {
        assert FindTerminator(s[1..]).Some?;
        assert FindTerminator(s[1..][1..]).Some?;
      }
    } else {
      AfterLineHasEmptyLine(s[1..]);
      assert AfterLine(s) == AfterLine(s[1..]) by {
        assert LineEnd(s) == 1 + LineEnd(s[1..]);
      }
    }
  }

  lemma {:induction false} ReadHeadersAppend(s: string, more: string)
    requires HasEmptyLine(s)
    ensures ReadHeaders(s + more) == ReadHeaders(s)
    decreases |s|
  {
    if StartsWithLineEnd(s) {
      LineAppend(s, more);
      assert LineEnd(s) == 1 && Line(s) == "\r";
    } else {
      AfterLineHasEmptyLine(s);
      LineAppend(s, more);
      ReadHeadersAppend(AfterLine(s), more);
      assert s + more != "";
    }
  }

  lemma {:induction false} HeadStable(buffer: string, more: string)
    requires IsComplete(buffer)
    ensures Line(buffer + more) == Line(buffer)
    ensures ReadHeaders(AfterLine(buffer + more)) == ReadHeaders(AfterLine(buffer))
  {
    AfterLineHasEmptyLine(buffer);
    LineAppend(buffer, more);
    ReadHeadersAppend(AfterLine(buffer), more);
  }

  /** The same answer but for the raw text and the bytes of the body. */
  predicate SameHead(r: RequestData, r': RequestData) {
    && r.isValid == r'.isValid && r.verb == r'.verb && r.url == r'.url
    && r.version == r'.version && r.headers == r'.headers
  }

  /** Where the bytes of a complete request's head end. */
  function HeadLength(all: string): (n: nat)
    requires IsComplete(all)
    ensures n <= |all|
  {
    FindTerminator(all).value + 4
  }

  lemma {:induction false} BodyOf(buffer: string)
    requires IsComplete(buffer)
    ensures Parsed(buffer).body == if Parsed(buffer).isValid then buffer[HeadLength(buffer)..] else ""
  {
    assert HeadLength(buffer) == |buffer| ==> buffer[HeadLength(buffer)..] == "";
  }

  lemma {:induction false} HeadOfExtension(buffer: string, more: string)
    requires IsComplete(buffer)
    ensures IsComplete(buffer + more) && HeadLength(buffer + more) == HeadLength(buffer)
    ensures SameHead(Parsed(buffer), Parsed(buffer + more))
  {
    FindAppend(buffer, more);
    HeadStable(buffer, more);
  }

  lemma {:induction false} TailOf(s: string, more: string, n: nat)
    requires n <= |s|
    ensures (s + more)[n..] == s[n..] + more
  {
  }

  lemma {:induction false} BodiesOf(buffer: string, longer: string, more: string)
    requires IsComplete(buffer) && IsComplete(longer) && HeadLength(longer) == HeadLength(buffer)
    requires Parsed(buffer).isValid == Parsed(longer).isValid
    requires longer[HeadLength(buffer)..] == buffer[HeadLength(buffer)..] + more
    ensures Parsed(longer).body == if Parsed(buffer).isValid then Parsed(buffer).body + more else ""
  {
    BodyOf(buffer);
    BodyOf(longer);
  }

  /** Once a buffer is a complete request, so is each extension of it, with the same head; a valid
      request's body is extended by exactly the added bytes, an invalid one has none. */
  lemma {:induction false} ParseStable(buffer: string, more: string)
    requires IsComplete(buffer)
    ensures IsComplete(buffer + more) && SameHead(Parsed(buffer), Parsed(buffer + more))
    ensures Parsed(buffer + more).body == if Parsed(buffer).isValid then Parsed(buffer).body + more else ""
  {
    HeadOfExtension(buffer, more);
    TailOf(buffer, more, HeadLength(buffer));
    BodiesOf(buffer, buffer + more, more);
  }

  // ---------- Any chunking ----------

  function Concat(chunks: seq<string>): string {
    if chunks == [] then "" else Concat(chunks[..|chunks| - 1]) + chunks[|chunks| - 1]
  }

  /** The buffer after `k` reads. */
  function After(chunks: seq<string>, k: nat): string
    requires k <= |chunks|
  {
    Concat(chunks[..k])
  }

  /** The request is complete after read number `k`, and was not before. */
  ghost predicate AnsweredAt(chunks: seq<string>, k: nat) {
    && 0 < k <= |chunks| && IsComplete(After(chunks, k))
    && forall j | 0 < j < k :: !IsComplete(After(chunks, j))
  }

  lemma {:induction false} AfterIsPrefix(chunks: seq<string>, j: nat, k: nat)
    requires j <= k <= |chunks|
    ensures |After(chunks, j)| <= |After(chunks, k)| && After(chunks, j) == After(chunks, k)[..|After(chunks, j)|]
    decreases k - j
  {
    if j < k {
      AfterIsPrefix(chunks, j, k - 1);
      assert chunks[..k][..k - 1] == chunks[..k - 1];
    }
  }

  lemma {:induction false} CompleteAfter(chunks: seq<string>, k: nat)
    requires k <= |chunks|
    ensures var all := Concat(chunks);
            IsComplete(After(chunks, k)) <==> IsComplete(all) && HeadLength(all) <= |After(chunks, k)|
  {
    AfterIsPrefix(chunks, k, |chunks|);
    assert chunks[..|chunks|] == chunks;
    CompletePrefix(Concat(chunks), |After(chunks, k)|);
  }

  /** A request is answered exactly at the read that brings the last byte of the first blank line,
      not before, and if that byte comes at all. */
  lemma {:induction false} AnsweredExactly(chunks: seq<string>, k: nat)
    ensures AnsweredAt(chunks, k) <==>
            && 0 < k <= |chunks| && IsComplete(Concat(chunks))
            && |After(chunks, k - 1)| < HeadLength(Concat(chunks)) <= |After(chunks, k)|
  {
    forall j | 0 <= j <= |chunks|
      ensures IsComplete(After(chunks, j)) <==>
              IsComplete(Concat(chunks)) && HeadLength(Concat(chunks)) <= |After(chunks, j)|
    {
      CompleteAfter(chunks, j);
    }
    if 0 < k <= |chunks| {
      forall j | 0 <= j < k ensures |After(chunks, j)| <= |After(chunks, k - 1)| {
        AfterIsPrefix(chunks, j, k - 1);
      }
      assert After(chunks, 0) == "";
    }
  }

  lemma {:induction false} EventuallyAnswered(chunks: seq<string>, n: nat)
    requires 0 < n <= |chunks| && IsComplete(After(chunks, n))
    ensures exists k :: AnsweredAt(chunks, k)
    decreases n
  {
    if j: nat :| 0 < j < n && IsComplete(After(chunks, j)) {
      EventuallyAnswered(chunks, j);
    } else {
      assert AnsweredAt(chunks, n);
    }
  }

  lemma {:induction false} AnsweredIffComplete(chunks: seq<string>)
    ensures (exists k :: AnsweredAt(chunks, k)) <==> IsComplete(Concat(chunks))
  {
    assert chunks[..|chunks|] == chunks;
    if IsComplete(Concat(chunks)) {
      assert chunks != [];
      EventuallyAnswered(chunks, |chunks|);
    }
    if k :| AnsweredAt(chunks, k) {
      AnsweredExactly(chunks, k);
    }
  }

  /** However the bytes are split, the answer is given for the validity, method, URL and headers that the
      bytes alone determine; its body is what had come behind the blank line. */
  lemma {:induction false} ChunkingDoesNotMatter(chunks: seq<string>, k: nat)
    requires AnsweredAt(chunks, k)
    ensures var all, got := Concat(chunks), After(chunks, k);
            && IsComplete(all) && HeadLength(all) <= |got| <= |all|
            && SameHead(Parsed(got), Parsed(all))
            && Parsed(got).body == (if Parsed(all).isValid then all[HeadLength(all)..|got|] else "")
  {
    assert chunks[..|chunks|] == chunks;
    AnsweredExactly(chunks, k);
    AfterIsPrefix(chunks, k, |chunks|);
    AnswerOnPrefix(Concat(chunks), |After(chunks, k)|);
  }

  lemma {:induction false} AnswerOnPrefix(all: string, n: nat)
    requires n <= |all| && IsComplete(all[..n])
    ensures IsComplete(all) && HeadLength(all) <= n && SameHead(Parsed(all[..n]), Parsed(all))
    ensures Parsed(all[..n]).body == if Parsed(all).isValid then all[HeadLength(all)..n] else ""
  {
    var got := all[..n];
    assert all == got + all[n..];
    HeadOfExtension(got, all[n..]);
    BodyOf(got);
    assert got[HeadLength(got)..] == all[HeadLength(got)..n];
  }
}
