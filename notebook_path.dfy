/** Canonicalisation of the `notebookURL` option: a reference `author/repo[/rest]`
    becomes the path `/users/author/repositories/repo/...`, with `branches/master`
    when nothing follows the repository, or is discarded when it names no repository. */
module NotebookPath {
  import opened Wrappers
  import opened Text

  /** The `/`-separated segments of a reference after one leading and one trailing
      empty segment are dropped. */
  function Segments(ref: string): seq<string> {
    var p := Split(ref, '/');
    var q := if p[0] == "" then p[1..] else p;
    if |q| > 0 && q[|q| - 1] == "" then q[..|q| - 1] else q
  }

  /** No segment holds a `/`. */
  lemma SegmentsFree(ref: string)
    ensures forall i :: 0 <= i < |Segments(ref)| ==> '/' !in Segments(ref)[i]
  {
    SplitPiecesFree(ref, '/');
    var p := Split(ref, '/');
    var q := if p[0] == "" then p[1..] else p;
    assert forall i :: 0 <= i < |q| ==> q[i] in p;
    assert forall i :: 0 <= i < |Segments(ref)| ==> Segments(ref)[i] in q;
  }

  /** The segments of the canonical path for `author/repo[/rest]`. */
  function CanonicalSegments(parts: seq<string>): seq<string>
    requires |parts| >= 2
  {
    ["", "users", parts[0], "repositories", parts[1]] +
    (if |parts| > 2 then parts[2..] else ["branches", "master"])
  }

  /** What the constructor leaves in `fromNotebook`: an absent or empty reference is
      kept as it is (the script only canonicalises a truthy one), fewer than two
      segments give `null`, anything else its canonical path. */
  function Canonical(ref: Option<string>): Option<string> {
    if ref.None? || ref.value == "" then ref
    else
      var parts := Segments(ref.value);
      if |parts| < 2 then None else Some(Join(CanonicalSegments(parts), '/'))
  }

  /** The constructor's canonicalisation step, with the reference's segments in a local
      array that loses its first and last empty segment by `shift` and `pop`. */
  method Canonicalise(fromNotebook: Option<string>) returns (r: Option<string>)
    ensures r == Canonical(fromNotebook)
  {
    r := fromNotebook;
    if fromNotebook.Some? && fromNotebook.value != "" {
      var parts := Split(fromNotebook.value, '/');
      if parts[0] == "" {
        parts := parts[1..];
      }
      if |parts| > 0 && parts[|parts| - 1] == "" {
        parts := parts[..|parts| - 1];
      }
      if |parts| < 2 {
        r := None;
      } else {
        var author := parts[0];
        var repo := parts[1];
        var canonicalParts := ["", "users", author, "repositories", repo];
        if |parts| > 2 {
          canonicalParts := canonicalParts + parts[2..];
        } else {
          canonicalParts := canonicalParts + ["branches", "master"];
        }
        r := Some(Join(canonicalParts, '/'));
      }
    }
  }

  /** A leading empty piece of a non-empty join stands for a leading `/`. */
  lemma JoinLeadingEmpty(p: seq<string>)
    requires |p| >= 1 && p[0] == "" && Join(p, '/') != ""
    ensures |p| >= 2 && Join(p, '/') == "/" + Join(p[1..], '/')
  {
    assert |p| >= 2;
    assert Join(p, '/') == p[0] + ['/'] + Join(p[1..], '/');
  }

  /** A trailing empty piece stands for a trailing `/`. */
  lemma JoinTrailingEmpty(q: seq<string>)
    requires |q| >= 2 && q[|q| - 1] == ""
    ensures Join(q, '/') == Join(q[..|q| - 1], '/') + "/"
  {
    JoinConcat(q[..|q| - 1], [""], '/');
    assert q[..|q| - 1] + [""] == q;
  }

  /** The segments, joined again, are the reference without its leading `/` and without
      its trailing `/`: exactly one empty segment is dropped at each end that has one. */
  lemma SegmentsSpan(ref: string)
    requires ref != ""
    ensures ref == (if ref[0] == '/' then "/" else "") + Join(Segments(ref), '/') +
                   (if |ref| > 1 && ref[|ref| - 1] == '/' then "/" else "")
  {
    var p := Split(ref, '/');
    var q := if p[0] == "" then p[1..] else p;
    var segs := if |q| > 0 && q[|q| - 1] == "" then q[..|q| - 1] else q;
    var lead := if ref[0] == '/' then "/" else "";
    var trail := if |ref| > 1 && ref[|ref| - 1] == '/' then "/" else "";
    LeadSpan(ref);
    TrailSpan(q);
    TrailCondition(ref);
    assert Join(q, '/') == Join(segs, '/') + trail;
    assert Segments(ref) == segs;
    Concat3(lead, Join(segs, '/'), trail);
  }

  lemma Concat3(a: string, b: string, c: string)
    ensures a + (b + c) == a + b + c
  {
  }

  /** Dropping a leading empty piece accounts for a leading `/`. */
  lemma LeadSpan(ref: string)
    requires ref != ""
    ensures var p := Split(ref, '/');
            var q := if p[0] == "" then p[1..] else p;
            ref == (if ref[0] == '/' then "/" else "") + Join(q, '/')
  {
    var p := Split(ref, '/');
    JoinSplit(ref, '/');
    SplitFirstEmpty(ref, '/');
    if p[0] == "" {
      JoinLeadingEmpty(p);
    }
  }

  /** Dropping a trailing empty piece accounts for a trailing `/`, unless it is the only piece left. */
  lemma TrailSpan(q: seq<string>)
    ensures var segs := if |q| > 0 && q[|q| - 1] == "" then q[..|q| - 1] else q;
            Join(q, '/') == Join(segs, '/') + (if |q| > 1 && q[|q| - 1] == "" then "/" else "")
  {
    if |q| > 1 && q[|q| - 1] == "" {
      JoinTrailingEmpty(q);
    }
  }

  /** After a leading empty piece is dropped, an empty last piece with another piece
      before it is there exactly when the reference is longer than `/` and ends with `/`. */
  lemma TrailCondition(ref: string)
    requires ref != ""
    ensures var p := Split(ref, '/');
            var q := if p[0] == "" then p[1..] else p;
            |q| > 1 && q[|q| - 1] == "" <==> |ref| > 1 && ref[|ref| - 1] == '/'
  {
    var p := Split(ref, '/');
    SplitLastEmpty(ref, '/');
    if |ref| > 1 && ref[|ref| - 1] == '/' {
      TrailingSlashPieces(ref);
    } else if |ref| == 1 && ref[0] == '/' {
      assert ref == "" + ['/'] + "";
      SplitConcat("", '/', "");
    }
  }

  /** A reference longer than `/` that ends with `/` keeps at least two pieces once a
      leading empty piece is dropped. */
  lemma TrailingSlashPieces(ref: string)
    requires |ref| > 1 && ref[|ref| - 1] == '/'
    ensures var p := Split(ref, '/');
            |p| >= 2 && (p[0] == "" ==> |p| >= 3)
  {
    var x := ref[..|ref| - 1];
    assert ref == x + ['/'] + "";
    SplitConcat(x, '/', "");
    if x[0] == '/' {
      assert x == "" + ['/'] + x[1..];
      SplitConcat("", '/', x[1..]);
    }
  }

  /** The segments of a reference that neither starts nor ends with `/` are all its pieces. */
  lemma SegmentsBare(ref: string)
    requires ref != "" && ref[0] != '/' && ref[|ref| - 1] != '/'
    ensures Segments(ref) == Split(ref, '/')
  {
    SplitFirstEmpty(ref, '/');
    SplitLastEmpty(ref, '/');
    SegmentsNoEmptyEnds(ref);
  }

  lemma SegmentsLead(ref: string)
    requires ref != "" && ref[0] != '/' && ref[|ref| - 1] != '/'
    ensures Segments("/" + ref) == Split(ref, '/')
  {
    LeadSlashDropped(ref);
    SegmentsBare(ref);
  }

  lemma SegmentsTrail(ref: string)
    requires ref != "" && ref[0] != '/' && ref[|ref| - 1] != '/'
    ensures Segments(ref + "/") == Split(ref, '/')
  {
    SplitFirstEmpty(ref, '/');
    SplitTrailPieces(ref);
    var p := Split(ref, '/');
    assert (p + [""])[..|p|] == p;
  }

  lemma SegmentsBoth(ref: string)
    requires ref != "" && ref[0] != '/' && ref[|ref| - 1] != '/'
    ensures Segments("/" + ref + "/") == Split(ref, '/')
  {
    assert "/" + ref + "/" == "/" + (ref + "/");
    LeadSlashDropped(ref + "/");
    SegmentsTrail(ref);
  }

  /** One leading `/` before a string that does not start with `/` leaves its segments as they are. */
  lemma LeadSlashDropped(y: string)
    requires y != "" && y[0] != '/'
    ensures Segments("/" + y) == Segments(y)
  {
    SplitLeadPieces(y);
    SplitFirstEmpty(y, '/');
    assert ([""] + Split(y, '/'))[1..] == Split(y, '/');
  }

  /** A leading `/` adds one empty piece. */
  lemma SplitLeadPieces(ref: string)
    ensures Split("/" + ref, '/') == [""] + Split(ref, '/')
  {
    SplitConcat("", '/', ref);
    assert "" + ['/'] + ref == "/" + ref;
  }

  /** A trailing `/` adds one empty piece. */
  lemma SplitTrailPieces(ref: string)
    ensures Split(ref + "/", '/') == Split(ref, '/') + [""]
  {
    SplitConcat(ref, '/', "");
    assert ref + ['/'] + "" == ref + "/";
  }

  /** Slashes on both sides add one empty piece on each side. */
  lemma SplitBothPieces(ref: string)
    ensures Split("/" + ref + "/", '/') == [""] + Split(ref, '/') + [""]
  {
    SplitTrailPieces(ref);
    SplitConcat("", '/', ref + "/");
    assert "" + ['/'] + (ref + "/") == "/" + ref + "/";
  }

  /** A split whose first and last pieces are non-empty loses nothing. */
  lemma SegmentsNoEmptyEnds(x: string)
    requires Split(x, '/')[0] != "" && Split(x, '/')[|Split(x, '/')| - 1] != ""
    ensures Segments(x) == Split(x, '/')
  {
  }

  /** Slashes around a reference change nothing: `/author/repo/` resolves as `author/repo`. */
  lemma SlashesIgnored(ref: string)
    requires ref != "" && ref[0] != '/' && ref[|ref| - 1] != '/'
    ensures Canonical(Some("/" + ref)) == Canonical(Some(ref))
    ensures Canonical(Some(ref + "/")) == Canonical(Some(ref))
    ensures Canonical(Some("/" + ref + "/")) == Canonical(Some(ref))
  {
    SegmentsBare(ref);
    SegmentsLead(ref);
    SegmentsTrail(ref);
    SegmentsBoth(ref);
  }

  /** A non-empty reference is discarded exactly when it has fewer than two segments;
      otherwise its canonical path splits into `""`, `users`, the author, `repositories`,
      the repository, and then the remaining segments verbatim and in order, or
      `branches`, `master` when there are none. */
  lemma CanonicalShape(ref: string)
    requires ref != ""
    ensures var parts := Segments(ref);
            (Canonical(Some(ref)).None? <==> |parts| < 2) &&
            (|parts| >= 2 ==>
              var path := Canonical(Some(ref)).value;
              Split(path, '/') == ["", "users", parts[0], "repositories", parts[1]] +
                                  (if |parts| > 2 then parts[2..] else ["branches", "master"]))
  {
    var parts := Segments(ref);
    if |parts| >= 2 {
      SegmentsFree(ref);
      var c := CanonicalSegments(parts);
      forall i | 0 <= i < |c| ensures '/' !in c[i] {
        if i >= 5 && |parts| > 2 {
          assert c[i] == parts[i - 3];
        }
      }
      SplitJoin(c, '/');
    }
  }

  lemma JoinHead(author: string, repo: string)
    ensures Join(["", "users", author, "repositories", repo], '/') == "/users/" + author + "/repositories/" + repo
  {
    var head := ["", "users", author, "repositories", repo];
    assert head[3..][1..] == head[4..];
    assert head[2..][1..] == head[3..];
    assert head[1..][1..] == head[2..];
    assert Join(head[4..], '/') == repo;
    assert Join(head[3..], '/') == "repositories" + "/" + repo;
    assert Join(head[2..], '/') == author + "/" + ("repositories" + "/" + repo);
    assert Join(head[1..], '/') == "users" + "/" + (author + "/" + ("repositories" + "/" + repo));
    assert Join(head, '/') == "" + "/" + ("users" + "/" + (author + "/" + ("repositories" + "/" + repo)));
  }

  /** The canonical path spelled out: `/users/<author>/repositories/<repo>/` and the tail. */
  lemma JoinCanonical(author: string, repo: string, tail: seq<string>)
    requires |tail| >= 1
    ensures Join(["", "users", author, "repositories", repo] + tail, '/') ==
            "/users/" + author + "/repositories/" + repo + "/" + Join(tail, '/')
  {
    JoinConcat(["", "users", author, "repositories", repo], tail, '/');
    JoinHead(author, repo);
  }

  /** `author/repo` resolves to the master branch of that repository. */
  lemma TwoSegments(author: string, repo: string)
    requires author != "" && repo != "" && '/' !in author && '/' !in repo
    ensures Canonical(Some(author + "/" + repo)) ==
            Some("/users/" + author + "/repositories/" + repo + "/branches/master")
  {
    var ref := author + "/" + repo;
    SplitAfterSegment(author, repo);
    SplitNoSep(repo, '/');
    SegmentsNoEmptyEnds(ref);
    assert Segments(ref) == [author, repo];
    MasterPath(author, repo);
  }

  /** With no segment after the repository, the path ends in `/branches/master`. */
  lemma MasterPath(author: string, repo: string)
    ensures Join(CanonicalSegments([author, repo]), '/') ==
            "/users/" + author + "/repositories/" + repo + "/branches/master"
  {
    var tail := ["branches", "master"];
    assert CanonicalSegments([author, repo]) == ["", "users", author, "repositories", repo] + tail;
    JoinCanonical(author, repo, tail);
    MasterTail("/users/" + author + "/repositories/" + repo);
  }

  /** `branches` and `master` joined after a path. */
  lemma MasterTail(pre: string)
    ensures pre + "/" + Join(["branches", "master"], '/') == pre + "/branches/master"
  {
    var tail := ["branches", "master"];
    assert Join(tail, '/') == "branches" + "/" + "master";
    assert "/" + ("branches" + "/" + "master") == "/branches/master";
  }

  /** Splitting `seg/rest` for a segment without `/` yields `seg`, then the pieces of `rest`. */
  lemma SplitAfterSegment(seg: string, rest: string)
    requires '/' !in seg
    ensures Split(seg + "/" + rest, '/') == [seg] + Split(rest, '/')
  {
    SplitConcat(seg, '/', rest);
    SplitNoSep(seg, '/');
  }

  /** Splitting `author/repo/rest` yields the author, the repository, then the pieces of `rest`. */
  lemma SplitAuthorRepo(author: string, repo: string, rest: string)
    requires '/' !in author && '/' !in repo
    ensures Split(author + "/" + repo + "/" + rest, '/') == [author, repo] + Split(rest, '/')
  {
    SplitAfterSegment(repo, rest);
    SplitAfterSegment(author, repo + "/" + rest);
    assert author + "/" + repo + "/" + rest == author + "/" + (repo + "/" + rest);
  }

  /** Whatever follows `author/repo/` is kept verbatim, so `alice/repo/branches/dev`
      resolves to `/users/alice/repositories/repo/branches/dev`. */
  lemma MoreSegments(author: string, repo: string, rest: string)
    requires author != "" && '/' !in author && '/' !in repo
    requires rest != "" && rest[|rest| - 1] != '/'
    ensures Canonical(Some(author + "/" + repo + "/" + rest)) ==
            Some("/users/" + author + "/repositories/" + repo + "/" + rest)
  {
    var ref := author + "/" + repo + "/" + rest;
    var tail := Split(rest, '/');
    SplitAuthorRepo(author, repo, rest);
    SplitLastEmpty(rest, '/');
    var p := [author, repo] + tail;
    assert p[0] == author && p[|p| - 1] == tail[|tail| - 1];
    SegmentsNoEmptyEnds(ref);
    RestPath(author, repo, rest);
  }

  /** With segments after the repository, the path ends in those segments joined again. */
  lemma RestPath(author: string, repo: string, rest: string)
    ensures Join(CanonicalSegments([author, repo] + Split(rest, '/')), '/') ==
            "/users/" + author + "/repositories/" + repo + "/" + rest
  {
    var tail := Split(rest, '/');
    var p := [author, repo] + tail;
    assert p[2..] == tail;
    assert CanonicalSegments(p) == ["", "users", author, "repositories", repo] + tail;
    JoinCanonical(author, repo, tail);
    JoinSplit(rest, '/');
  }

  /** A single segment, with or without slashes around it, is discarded. */
  lemma OneSegmentDiscarded(seg: string)
    requires seg != "" && '/' !in seg
    ensures Canonical(Some(seg)) == None
    ensures Canonical(Some("/" + seg)) == None
    ensures Canonical(Some(seg + "/")) == None
    ensures Canonical(Some("/" + seg + "/")) == None
  {
    SplitNoSep(seg, '/');
    SegmentsNoEmptyEnds(seg);
    assert seg[0] in seg && seg[|seg| - 1] in seg;
    SlashesIgnored(seg);
  }
}
