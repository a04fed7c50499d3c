/** `extract_video_id`: the video id of a YouTube address, from its already
    parsed network location, path and decoded query parameters. */
module VideoId {
  import opened Wrappers
  import PyStr

  /** One decoded `name=value` pair of the query string, in order. */
  datatype QueryParam = QueryParam(name: string, value: string)

  /** The parts of the address that `urlparse` separates. */
  datatype ParsedUrl = ParsedUrl(netloc: string, path: string, query: seq<QueryParam>)

  /** The two exceptions the operation can raise. */
  datatype VideoIdError =
    | NoVideoId                  // ValueError: no rule applies to the address
    | MissingParameter(name: string)  // KeyError from indexing the parsed query

  const ShortHost: string := "youtu.be"
  const LongHosts: set<string> := {"www.youtube.com", "youtube.com"}

  /** `parse_qs(query).get(name, [])`: the values given for `name`, in order,
      with blank values dropped as `parse_qs` does by default. */
  function ParamValues(query: seq<QueryParam>, name: string): (vs: seq<string>)
    ensures |vs| <= |query|
    ensures forall i :: 0 <= i < |vs| ==> vs[i] != ""
    ensures forall v :: v in vs <==> v != "" && QueryParam(name, v) in query
  {
    if query == [] then []
    else
      (if query[0].name == name && query[0].value != "" then [query[0].value] else [])
      + ParamValues(query[1..], name)
  }

  predicate IsSlash(c: char) {
    c == '/'
  }

  /** `'/' + seg + '/' + rest` splits into `""`, `seg` and the parts of `rest`. */
  lemma {:induction false} SplitTwoSegments(seg: string, rest: string)
    requires forall i :: 0 <= i < |seg| ==> !IsSlash(seg[i])
    ensures PyStr.SplitWhere("/" + seg + "/" + rest, IsSlash)
         == ["", seg] + PyStr.SplitWhere(rest, IsSlash)
  {
    PyStr.SplitAtSeparator(seg, '/', rest, IsSlash);
    PyStr.SplitAtSeparator("", '/', seg + "/" + rest, IsSlash);
    assert "/" + seg + "/" + rest == "" + ['/'] + (seg + ['/'] + rest);
  }

  /** A path that starts with `"/" + seg + "/"` has a third segment, and that
      segment is the first part of what follows the prefix. */
  lemma {:induction false} ThirdSegment(path: string, seg: string)
    requires forall i :: 0 <= i < |seg| ==> !IsSlash(seg[i])
    requires PyStr.StartsWith(path, "/" + seg + "/")
    ensures |PyStr.SplitWhere(path, IsSlash)| >= 3
    ensures PyStr.SplitWhere(path, IsSlash)[2]
         == PyStr.SplitWhere(path[|seg| + 2..], IsSlash)[0]
  {
    var rest := path[|seg| + 2..];
    assert path == "/" + seg + "/" + rest;
    SplitTwoSegments(seg, rest);
  }

  /** `extract_video_id(url)`. */
  function ExtractVideoId(url: ParsedUrl): (r: Result<string, VideoIdError>)
    ensures r == Failure(NoVideoId) <==>
      url.netloc != ShortHost
      && !(url.netloc in LongHosts
           && (url.path == "/watch"
               || PyStr.StartsWith(url.path, "/embed/")
               || PyStr.StartsWith(url.path, "/v/")))
    ensures r == Failure(MissingParameter("v")) <==>
      url.netloc in LongHosts && url.path == "/watch" && ParamValues(url.query, "v") == []
    ensures url.netloc == ShortHost ==> r.Success? && (url.path == "" ==> r.value == "")
    ensures r.Failure? ==> r.error == NoVideoId || r.error == MissingParameter("v")
    ensures r.Success? && url.netloc == ShortHost && url.path != "" ==>
      [url.path[0]] + r.value == url.path
    ensures r.Success? && url.netloc != ShortHost && url.path != "/watch" ==>
      '/' !in r.value
  {
    if url.netloc == ShortHost then
      Success(PyStr.Drop(url.path, 1))
    else if url.netloc in LongHosts && url.path == "/watch" then
      var vs := ParamValues(url.query, "v");
      if vs == [] then Failure(MissingParameter("v")) else Success(vs[0])
    else if url.netloc in LongHosts && PyStr.StartsWith(url.path, "/embed/") then
      ThirdSegment(url.path, "embed");
      PyStr.SplitWhereParts(url.path, IsSlash);
      Success(PyStr.SplitWhere(url.path, IsSlash)[2])
    else if url.netloc in LongHosts && PyStr.StartsWith(url.path, "/v/") then
      ThirdSegment(url.path, "v");
      PyStr.SplitWhereParts(url.path, IsSlash);
      Success(PyStr.SplitWhere(url.path, IsSlash)[2])
    else
      Failure(NoVideoId)
  }

  /** A short link `youtu.be/<id>` yields `<id>`, whatever the query. */
  lemma {:induction false} ShortLinkRoundTrip(id: string, query: seq<QueryParam>)
    ensures ExtractVideoId(ParsedUrl(ShortHost, "/" + id, query)) == Success(id)
  {
    assert ("/" + id)[1..] == id;
  }

  /** A watch address whose first non-blank decoded `v` value is `id`
      yields `id`. The address `https://www.youtube.com/watch?v=<id>` built
      to look up a title falls under this only when the query decodes back
      to `id`; `BlankIdNotRebuilt` shows the empty id does not. */
  lemma {:induction false} WatchRoundTrip(host: string, id: string, before: seq<QueryParam>, after: seq<QueryParam>)
    requires host in LongHosts
    requires id != ""
    requires ParamValues(before, "v") == []
    ensures ExtractVideoId(ParsedUrl(host, "/watch", before + [QueryParam("v", id)] + after))
         == Success(id)
  {
    ParamValuesAppend(before, [QueryParam("v", id)] + after, "v");
    assert before + [QueryParam("v", id)] + after == before + ([QueryParam("v", id)] + after);
    assert ([QueryParam("v", id)] + after)[1..] == after;
  }

  /** The empty id does not survive a round trip: `youtu.be/` yields `""`,
      but the watch address built from `""` has a blank `v`, which
      `parse_qs` drops, so looking the id up there raises `KeyError`. */
  lemma {:induction false} BlankIdNotRebuilt()
    ensures ExtractVideoId(ParsedUrl(ShortHost, "/", [])) == Success("")
    ensures ExtractVideoId(ParsedUrl("www.youtube.com", "/watch", [QueryParam("v", "")]))
         == Failure(MissingParameter("v"))
  {
    assert ParamValues([QueryParam("v", "")], "v") == [];
  }

  /** The values of a concatenated query are the values of each part. */
  lemma {:induction false} ParamValuesAppend(q1: seq<QueryParam>, q2: seq<QueryParam>, name: string)
    ensures ParamValues(q1 + q2, name) == ParamValues(q1, name) + ParamValues(q2, name)
  {
    if q1 != [] {
      assert (q1 + q2)[1..] == q1[1..] + q2;
      ParamValuesAppend(q1[1..], q2, name);
    } else {
      assert q1 + q2 == q2;
    }
  }

  /** An embed or `/v/` address yields the path segment after the prefix: the
      longest slash-free stretch of the path that follows it. */
  lemma {:induction false} EmbedSegment(url: ParsedUrl)
    requires url.netloc in LongHosts
    requires PyStr.StartsWith(url.path, "/embed/") || PyStr.StartsWith(url.path, "/v/")
    ensures ExtractVideoId(url).Success?
    ensures var n := if PyStr.StartsWith(url.path, "/embed/") then 7 else 3;
      var rest := url.path[n..];
      var id := ExtractVideoId(url).value;
      && |id| <= |rest| && id == rest[..|id|]
      && (|id| == |rest| || rest[|id|] == '/')
  {
    var embed := PyStr.StartsWith(url.path, "/embed/");
    var seg := if embed then "embed" else "v";
    var n := if embed then 7 else 3;
    assert n == |seg| + 2;
    ThirdSegment(url.path, seg);
    var id := PyStr.SplitWhere(url.path, IsSlash)[2];
    assert ExtractVideoId(url) == Success(id);
    assert id == PyStr.SplitWhere(url.path[n..], IsSlash)[0];
    PyStr.FirstPart(url.path[n..], IsSlash);
  }

  /** An embed address built from a slash-free id yields that id, whatever
      follows it after a slash. */
  lemma {:induction false} EmbedRoundTrip(host: string, id: string, tail: string)
    requires host in LongHosts
    requires '/' !in id
    requires tail == "" || tail[0] == '/'
    ensures ExtractVideoId(ParsedUrl(host, "/embed/" + id + tail, [])) == Success(id)
  {
    var url := ParsedUrl(host, "/embed/" + id + tail, []);
    assert PyStr.StartsWith(url.path, "/embed/");
    assert url.path[7..] == id + tail;
    EmbedSegment(url);
    var r := ExtractVideoId(url).value;
    var rest := id + tail;
    assert forall i :: 0 <= i < |id| ==> rest[i] == id[i] && rest[i] != '/';
    assert tail != "" ==> rest[|id|] == '/';
    assert forall i :: 0 <= i < |r| ==> r[i] == rest[i] && r[i] != '/';
    assert |r| == |id|;
    assert r == rest[..|id|] == id;
  }
}
