/** The segments of a URL after the prefix of a location: what `ApiRequestHandler::ExtractSegments` finds. */
module UrlSegments {
  import opened Sequences

  predicate StartsWith(s: string, prefix: string) {
    |prefix| <= |s| && s[..|prefix|] == prefix
  }

  /** The path without the prefix, which is taken off only where a segment ends. */
  function WithoutPrefix(prefix: string, path: string): string {
    if prefix != "" && StartsWith(path, prefix) && (|path| == |prefix| || path[|prefix|] == '/')
    then path[|prefix|..]
    else path
  }

  /** The maximal runs of characters other than '/'. */
  function Pieces(path: string): seq<string>
    decreases |path|
  {
    if path == "" then []
    else if path[0] == '/' then Pieces(path[1..])
    else [path[..IndexOf(path, '/')]] + Pieces(path[IndexOf(path, '/')..])
  }

  function Segments(prefix: string, url: string): seq<string> {
    Pieces(WithoutPrefix(prefix, url[..IndexOf(url, '?')]))
  }

  // ---------- Splitting ----------

  /** A run, then nothing or a slash. */
  lemma {:induction false} PiecesOfRun(run: string, rest: string)
    requires run != "" && '/' !in run && (rest == "" || rest[0] == '/')
    ensures Pieces(run + rest) == [run] + Pieces(rest)
  {
    var path := run + rest;
    assert path[..|run|] == run && path[|run|..] == rest;
    IndexOfIs(path, '/', |run|);
    assert path[0] == run[0] && run[0] in run;
  }

  function PieceOf(line: string): seq<string> {
    if line == "" then [] else [line]
  }

  /** What a round of the splitting loop does: take off everything up to a slash, and the slash. */
  lemma {:induction false} PiecesOfLine(line: string, rest: string)
    requires '/' !in line
    ensures Pieces(line + "/" + rest) == PieceOf(line) + Pieces(rest)
    ensures Pieces(line) == PieceOf(line)
  {
    var after := "/" + rest;
    Associate(line, "/", rest);
    assert after[1..] == rest;
    if line == "" {
      assert line + after == after;
    } else {
      PiecesOfRun(line, after);
      PiecesOfRun(line, "");
      assert line + "" == line;
    }
  }

  lemma {:induction false} LineOf(path: string)
    ensures var n := IndexOf(path, '/');
            Pieces(path) == PieceOf(path[..n]) + Pieces(if n < |path| then path[n + 1..] else "")
  {
    var n := IndexOf(path, '/');
    if n < |path| {
      assert path == path[..n] + "/" + path[n + 1..];
      PiecesOfLine(path[..n], path[n + 1..]);
    } else {
      assert path[..n] == path;
      PiecesOfLine(path, "");
    }
  }

  /** Trimming a slash at the end changes nothing. */
  lemma {:induction false} TrimEnd(path: string)
    ensures Pieces(path + "/") == Pieces(path)
    decreases |path|
  {
    if path == "" {
      assert path + "/" == "/" && "/"[1..] == "";
    } else if path[0] == '/' {
      assert (path + "/")[1..] == path[1..] + "/";
      TrimEnd(path[1..]);
    } else {
      var n := IndexOf(path, '/');
      var run, rest := path[..n], path[n..];
      TrimEnd(rest);
      assert path == run + rest && path + "/" == run + (rest + "/");
      PiecesOfRun(run, rest);
      PiecesOfRun(run, rest + "/");
    }
  }

  // ---------- Building URLs ----------

  predicate IsSegment(s: string) {
    s != "" && '/' !in s && '?' !in s
  }

  function Slashes(n: nat): (s: string)
    ensures |s| == n && forall i | 0 <= i < n :: s[i] == '/'
  {
    seq(n, _ => '/')
  }

  /** Segments behind one slash or more each, with any number of slashes at the end. */
  function Build(segments: seq<string>, more: seq<nat>, tail: nat): string
    requires |segments| == |more|
  {
    if segments == [] then Slashes(tail)
    else Slashes(1 + more[0]) + (segments[0] + Build(segments[1..], more[1..], tail))
  }

  lemma {:induction false} PiecesOfSlashes(n: nat, rest: string)
    ensures Pieces(Slashes(n) + rest) == Pieces(rest)
  {
    if n == 0 {
      assert Slashes(0) + rest == rest;
    } else {
      assert (Slashes(n) + rest)[1..] == Slashes(n - 1) + rest;
      PiecesOfSlashes(n - 1, rest);
    }
  }

  lemma {:induction false} PiecesOfBuild(segments: seq<string>, more: seq<nat>, tail: nat)
    requires |segments| == |more| && forall i | 0 <= i < |segments| :: IsSegment(segments[i])
    ensures Pieces(Build(segments, more, tail)) == segments
    ensures Build(segments, more, tail) == "" || Build(segments, more, tail)[0] == '/'
    decreases |segments|
  {
    if segments == [] {
      PiecesOfSlashes(tail, "");
      assert Slashes(tail) + "" == Slashes(tail);
    } else {
      var rest := Build(segments[1..], more[1..], tail);
      PiecesOfBuild(segments[1..], more[1..], tail);
      PiecesOfSlashes(1 + more[0], segments[0] + rest);
      PiecesOfRun(segments[0], rest);
    }
  }

  lemma {:induction false} BuildHasNoQuery(segments: seq<string>, more: seq<nat>, tail: nat)
    requires |segments| == |more| && forall i | 0 <= i < |segments| :: IsSegment(segments[i])
    ensures '?' !in Build(segments, more, tail)
    decreases |segments|
  {
    if segments != [] {
      BuildHasNoQuery(segments[1..], more[1..], tail);
    }
  }

  /** Extraction undoes building, behind any prefix and in front of any query. */
  lemma {:induction false} SegmentsOfBuilt(prefix: string, segments: seq<string>, more: seq<nat>, tail: nat,
                                           query: string)
    requires '?' !in prefix && (query == "" || query[0] == '?')
    requires |segments| == |more| && forall i | 0 <= i < |segments| :: IsSegment(segments[i])
    ensures Segments(prefix, prefix + Build(segments, more, tail) + query) == segments
  {
    var built := Build(segments, more, tail);
    var path := prefix + built;
    PiecesOfBuild(segments, more, tail);
    BuildHasNoQuery(segments, more, tail);
    assert (path + query)[..|path|] == path;
    IndexOfIs(path + query, '?', |path|);
    assert path[|prefix|..] == built && path[..|prefix|] == prefix;
  }

  lemma {:induction false} BuildAppend(a: seq<string>, ma: seq<nat>, b: seq<string>, mb: seq<nat>, tail: nat)
    requires |a| == |ma| && |b| == |mb|
    ensures Build(a + b, ma + mb, tail) == Build(a, ma, 0) + Build(b, mb, tail)
    decreases |a|
  {
    if a == [] {
      assert a + b == b && ma + mb == mb;
      assert Slashes(0) + Build(b, mb, tail) == Build(b, mb, tail);
    } else {
      BuildAppend(a[1..], ma[1..], b, mb, tail);
      assert (a + b)[1..] == a[1..] + b && (ma + mb)[1..] == ma[1..] + mb;
      Associate(a[0], Build(a[1..], ma[1..], 0), Build(b, mb, tail));
      Associate(Slashes(1 + ma[0]), a[0] + Build(a[1..], ma[1..], 0), Build(b, mb, tail));
    }
  }

  lemma {:induction false} BuildOne(s: string, m: nat)
    ensures Build([s], [m], 0) == Slashes(1 + m) + s
  {
    assert Build([s][1..], [m][1..], 0) == "" && s + "" == s;
  }

  lemma {:induction false} PathKept(prefix: string, path: string, query: string)
    requires '?' !in path && (query == "" || query[0] == '?')
    requires |prefix| < |path| && path[|prefix|] != '/'
    ensures Segments(prefix, path + query) == Pieces(path)
  {
    assert (path + query)[..|path|] == path;
    assert forall i | 0 <= i < |path| :: (path + query)[i] == path[i] && path[i] in path;
    IndexOfIs(path + query, '?', |path|);
  }

  lemma {:induction false} FiveParts(a: string, b: string, c: string, d: string, e: string)
    ensures a + (b + c) + (d + e) == a + (b + (c + d)) + e
  {
  }

  lemma {:induction false} BuildInside(front: seq<string>, mf: seq<nat>, last: string, ml: nat, w: string,
                    rest: seq<string>, mr: seq<nat>, tail: nat)
    requires |front| == |mf| && |rest| == |mr|
    ensures Build(front + [last], mf + [ml], 0) + (w + Build(rest, mr, tail)) ==
            Build(front + [last + w] + rest, mf + [ml] + mr, tail)
  {
    BuildAppend(front, mf, [last], [ml], 0);
    BuildAppend(front, mf, [last + w], [ml], 0);
    BuildOne(last, ml);
    BuildOne(last + w, ml);
    BuildAppend(front + [last + w], mf + [ml], rest, mr, tail);
    FiveParts(Build(front, mf, 0), Slashes(1 + ml), last, w, Build(rest, mr, tail));
  }

  /** The prefix is taken off only where one of its segments ends: a URL that goes on inside the last one keeps
      that segment whole, and the segments of the prefix with it. */
  lemma {:induction false} PrefixInsideSegment(front: seq<string>, mf: seq<nat>, last: string, ml: nat, w: string,
                            rest: seq<string>, mr: seq<nat>, tail: nat, query: string)
    requires |front| == |mf| && |rest| == |mr| && IsSegment(last) && IsSegment(w)
    requires forall i | 0 <= i < |front| :: IsSegment(front[i])
    requires forall i | 0 <= i < |rest| :: IsSegment(rest[i])
    requires query == "" || query[0] == '?'
    ensures var prefix := Build(front + [last], mf + [ml], 0);
            Segments(prefix, prefix + (w + Build(rest, mr, tail)) + query) == front + [last + w] + rest
  {
    var prefix, after := Build(front + [last], mf + [ml], 0), Build(rest, mr, tail);
    var segments, more := front + [last + w] + rest, mf + [ml] + mr;
    var path := prefix + (w + after);
    BuildInside(front, mf, last, ml, w, rest, mr, tail);
    forall i | 0 <= i < |segments| ensures IsSegment(segments[i]) {
    }
    PiecesOfBuild(segments, more, tail);
    BuildHasNoQuery(segments, more, tail);
    assert path[|prefix|] == w[0] && w[0] in w;
    PathKept(prefix, path, query);
  }

  /** Every path that is empty or starts with a slash is built from its pieces: none is lost or made up. */
  lemma {:induction false} BuiltFromPieces(path: string) returns (more: seq<nat>, tail: nat)
    requires path == "" || path[0] == '/'
    ensures |more| == |Pieces(path)| && path == Build(Pieces(path), more, tail)
    ensures forall i | 0 <= i < |Pieces(path)| :: Pieces(path)[i] != "" && '/' !in Pieces(path)[i]
    decreases |path|
  {
    if path == "" {
      more, tail := [], 0;
    } else if path == "/" {
      more, tail := [], 1;
      assert path[1..] == "";
    } else if path[1] == '/' {
      more, tail := BuiltFromPieces(path[1..]);
      if more == [] {
        tail := tail + 1;
        assert path == Slashes(tail);
      } else {
        assert Slashes(2 + more[0]) == "/" + Slashes(1 + more[0]);
        more := [more[0] + 1] + more[1..];
      }
    } else {
      var n := IndexOf(path[1..], '/');
      var run, rest := path[1..][..n], path[1..][n..];
      assert path == Slashes(1) + (run + rest);
      PiecesOfRun(run, rest);
      more, tail := BuiltFromPieces(rest);
      more := [0] + more;
    }
  }
}
