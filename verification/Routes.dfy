/**
 * The application's route table: fixed paths and the builders that splice
 * ids into paths. A path is read back through its '/'-separated segments
 * (`Split`), so every builder states which segments its result has; the ids
 * come back out unchanged whenever they contain no '/'.
 */
module Routes {

  const HOME: string := "/"
  const SEARCH: string := "/search"
  const STREAMS: string := "/streams"
  const SOURCES: string := "/sources"
  const DASHBOARDS: string := "/dashboards"
  const SYSTEM_COLLECTORS: string := "/system/collectors"
  const SYSTEM_CONTENTPACKS_LIST: string := "/system/contentpacks"
  const SYSTEM_CONTENTPACKS_EXPORT: string := "/system/contentpacks/export"
  const SYSTEM_GROKPATTERNS: string := "/system/grokpatterns"
  const SYSTEM_INPUTS: string := "/system/inputs"
  const SYSTEM_NODES: string := "/system/nodes"
  const SYSTEM_OUTPUTS: string := "/system/outputs"
  const SYSTEM_OVERVIEW: string := "/system/overview"
  const SYSTEM_ROLES: string := "/system/roles"
  const SYSTEM_USERS_CREATE: string := "/system/users/new"
  const SYSTEM_USERS_LIST: string := "/system/users"

  // ---------------------------------------------------------------------------
  // Segments of a path
  // ---------------------------------------------------------------------------

  predicate NoSlash(s: string) {
    forall i :: 0 <= i < |s| ==> s[i] != '/'
  }

  predicate AllNoSlash(segs: seq<string>) {
    forall i :: 0 <= i < |segs| ==> NoSlash(segs[i])
  }

  /** Cuts a path at every '/'. */
  function Split(path: string): (segs: seq<string>)
    ensures |segs| >= 1
    decreases |path|
  {
    if path == [] then [[]]
    else if path[0] == '/' then [[]] + Split(path[1..])
    else
      var rest := Split(path[1..]);
      [[path[0]] + rest[0]] + rest[1..]
  }

  /** A path without '/' is a single segment. */
  lemma {:induction false} SplitNoSlash(path: string)
    requires NoSlash(path)
    ensures Split(path) == [path]
    decreases |path|
  {
    if path != [] {
      SplitNoSlash(path[1..]);
      assert path == [path[0]] + path[1..];
    }
  }

  /** No segment contains '/'. */
  lemma {:induction false} SplitSegmentsNoSlash(path: string)
    ensures AllNoSlash(Split(path))
    decreases |path|
  {
    if path != [] {
      SplitSegmentsNoSlash(path[1..]);
    }
  }

  /** Appending '/' and a slash-free segment adds one segment. */
  lemma {:induction false} SplitSnoc(path: string, seg: string)
    requires NoSlash(seg)
    ensures Split(path + "/" + seg) == Split(path) + [seg]
    decreases |path|
  {
    if path == [] {
      assert path + "/" + seg == "/" + seg;
      assert ("/" + seg)[1..] == seg;
      SplitNoSlash(seg);
    } else {
      assert (path + "/" + seg)[1..] == path[1..] + "/" + seg;
      SplitSnoc(path[1..], seg);
    }
  }

  // ---------------------------------------------------------------------------
  // Builders. Each states the fixed prefix its path starts with and, for
  // ids without '/', the segments that follow that prefix.
  // ---------------------------------------------------------------------------

  function MessageShow(index: string, messageId: string): (r: string)
    ensures "/messages/" <= r
    ensures NoSlash(index) && NoSlash(messageId) ==> Split(r[|"/messages/"|..]) == [index, messageId]
  {
    var r := "/messages/" + index + "/" + messageId;
    assert r == "/messages/" + (index + "/" + messageId);
    if NoSlash(index) && NoSlash(messageId) then
      SplitNoSlash(index);
      SplitSnoc(index, messageId);
      r
    else r
  }

  function StreamEdit(streamId: string): (r: string)
    ensures STREAMS + "/" <= r
    ensures NoSlash(streamId) ==> Split(r[|STREAMS| + 1..]) == [streamId, "edit"]
  {
    var r := "/streams/" + streamId + "/edit";
    assert r == STREAMS + "/" + (streamId + "/" + "edit");
    if NoSlash(streamId) then
      SplitNoSlash(streamId);
      SplitSnoc(streamId, "edit");
      r
    else r
  }

  function StreamOutputs(streamId: string): (r: string)
    ensures STREAMS + "/" <= r
    ensures NoSlash(streamId) ==> Split(r[|STREAMS| + 1..]) == [streamId, "outputs"]
  {
    var r := "/streams/" + streamId + "/outputs";
    assert r == STREAMS + "/" + (streamId + "/" + "outputs");
    if NoSlash(streamId) then
      SplitNoSlash(streamId);
      SplitSnoc(streamId, "outputs");
      r
    else r
  }

  function StreamAlerts(streamId: string): (r: string)
    ensures STREAMS + "/" <= r
    ensures NoSlash(streamId) ==> Split(r[|STREAMS| + 1..]) == [streamId, "alerts"]
  {
    var r := "/streams/" + streamId + "/alerts";
    assert r == STREAMS + "/" + (streamId + "/" + "alerts");
    if NoSlash(streamId) then
      SplitNoSlash(streamId);
      SplitSnoc(streamId, "alerts");
      r
    else r
  }

  /** "?k1=v1&k2=v2..." for the given parameters, values not encoded. */
  function QueryString(params: seq<(string, string)>): string {
    if params == [] then ""
    else QueryString(params[..|params| - 1]) + (if |params| == 1 then "?" else "&")
         + params[|params| - 1].0 + "=" + params[|params| - 1].1
  }

  /**
   * The search page of a stream. The `searchType` argument is not used: the
   * query's `type` parameter carries the range value, as does `range`.
   */
  function StreamSearch(streamId: string, query: string, searchType: string, range: string): (r: string)
    ensures STREAMS + "/" <= r
    ensures r == STREAMS + "/" + streamId + "/search"
                 + QueryString([("query", query), ("type", range), ("range", range)])
  {
    var params := [("query", query), ("type", range), ("range", range)];
    assert params[..2] == [("query", query), ("type", range)];
    assert params[..2][..1] == [("query", query)];
    assert [("query", query)][..0] == [];
    assert QueryString(params[..2][..1]) == "?query=" + query;
    assert QueryString(params[..2]) == "?query=" + query + "&type=" + range;
    assert QueryString(params) == "?query=" + query + "&type=" + range + "&range=" + range;
    "/streams/" + streamId + "/search" + "?query=" + query + "&type=" + range + "&range=" + range
  }

  function StartpageSet(pageType: string, id: string): (r: string)
    ensures "/startpage/set/" <= r
    ensures NoSlash(pageType) && NoSlash(id) ==> Split(r[|"/startpage/set/"|..]) == [pageType, id]
  {
    var r := "/startpage/set/" + pageType + "/" + id;
    assert r == "/startpage/set/" + (pageType + "/" + id);
    if NoSlash(pageType) && NoSlash(id) then
      SplitNoSlash(pageType);
      SplitSnoc(pageType, id);
      r
    else r
  }

  function DashboardShow(dashboardId: string): (r: string)
    ensures DASHBOARDS + "/" <= r && r[|DASHBOARDS| + 1..] == dashboardId
  {
    "/dashboards/" + dashboardId
  }

  function UsersEdit(username: string): (r: string)
    ensures SYSTEM_USERS_LIST + "/edit/" <= r && r[|SYSTEM_USERS_LIST + "/edit/"|..] == username
  {
    "/system/users/edit/" + username
  }

  function Node(nodeId: string): (r: string)
    ensures SYSTEM_NODES + "/" <= r && r[|SYSTEM_NODES| + 1..] == nodeId
  {
    "/system/nodes/" + nodeId
  }

  function GlobalInputExtractors(inputId: string): (r: string)
    ensures SYSTEM_INPUTS + "/" <= r
    ensures NoSlash(inputId) ==> Split(r[|SYSTEM_INPUTS| + 1..]) == [inputId, "extractors"]
  {
    var r := "/system/inputs/" + inputId + "/extractors";
    assert r == SYSTEM_INPUTS + "/" + (inputId + "/" + "extractors");
    if NoSlash(inputId) then
      SplitNoSlash(inputId);
      SplitSnoc(inputId, "extractors");
      r
    else r
  }

  function LocalInputExtractors(nodeId: string, inputId: string): (r: string)
    ensures SYSTEM_INPUTS + "/" <= r
    ensures NoSlash(nodeId) && NoSlash(inputId) ==>
      Split(r[|SYSTEM_INPUTS| + 1..]) == [nodeId, inputId, "extractors"]
  {
    var r := "/system/inputs/" + nodeId + "/" + inputId + "/extractors";
    assert r == SYSTEM_INPUTS + "/" + (nodeId + "/" + inputId + "/" + "extractors");
    if NoSlash(nodeId) && NoSlash(inputId) then
      SplitNoSlash(nodeId);
      SplitSnoc(nodeId, inputId);
      SplitSnoc(nodeId + "/" + inputId, "extractors");
      r
    else r
  }

  lemma LocalInputExtractorsTail(nodeId: string, inputId: string)
    ensures LocalInputExtractors(nodeId, inputId) == SYSTEM_INPUTS + "/" + (nodeId + "/" + inputId + "/" + "extractors")
  {
  }

  /** The local extractors path of the input, one segment longer. */
  function ExportExtractors(nodeId: string, inputId: string): (r: string)
    ensures LocalInputExtractors(nodeId, inputId) + "/" <= r
    ensures r[|LocalInputExtractors(nodeId, inputId)| + 1..] == "export"
    ensures NoSlash(nodeId) && NoSlash(inputId) ==>
      Split(r[|SYSTEM_INPUTS| + 1..]) == [nodeId, inputId, "extractors", "export"]
  {
    var r := LocalInputExtractors(nodeId, inputId) + "/export";
    LocalInputExtractorsTail(nodeId, inputId);
    assert r == SYSTEM_INPUTS + "/" + (nodeId + "/" + inputId + "/" + "extractors" + "/" + "export");
    if NoSlash(nodeId) && NoSlash(inputId) then
      SplitNoSlash(nodeId);
      SplitSnoc(nodeId, inputId);
      SplitSnoc(nodeId + "/" + inputId, "extractors");
      SplitSnoc(nodeId + "/" + inputId + "/" + "extractors", "export");
      r
    else r
  }

  /** The local extractors path of the input, one segment longer. */
  function ImportExtractors(nodeId: string, inputId: string): (r: string)
    ensures LocalInputExtractors(nodeId, inputId) + "/" <= r
    ensures r[|LocalInputExtractors(nodeId, inputId)| + 1..] == "import"
    ensures NoSlash(nodeId) && NoSlash(inputId) ==>
      Split(r[|SYSTEM_INPUTS| + 1..]) == [nodeId, inputId, "extractors", "import"]
  {
    var r := LocalInputExtractors(nodeId, inputId) + "/import";
    LocalInputExtractorsTail(nodeId, inputId);
    assert r == SYSTEM_INPUTS + "/" + (nodeId + "/" + inputId + "/" + "extractors" + "/" + "import");
    if NoSlash(nodeId) && NoSlash(inputId) then
      SplitNoSlash(nodeId);
      SplitSnoc(nodeId, inputId);
      SplitSnoc(nodeId + "/" + inputId, "extractors");
      SplitSnoc(nodeId + "/" + inputId + "/" + "extractors", "import");
      r
    else r
  }

  /** Written out in full, yet it extends the local extractors path of the same input. */
  function EditInputExtractor(nodeId: string, inputId: string, extractorId: string): (r: string)
    ensures LocalInputExtractors(nodeId, inputId) + "/" <= r
    ensures NoSlash(nodeId) && NoSlash(inputId) && NoSlash(extractorId) ==>
      Split(r[|SYSTEM_INPUTS| + 1..]) == [nodeId, inputId, "extractors", extractorId, "edit"]
  {
    var r := "/system/inputs/" + nodeId + "/" + inputId + "/extractors/" + extractorId + "/edit";
    var tail := nodeId + "/" + inputId + "/" + "extractors" + "/" + extractorId + "/" + "edit";
    assert r == SYSTEM_INPUTS + "/" + tail;
    assert r == LocalInputExtractors(nodeId, inputId) + "/" + extractorId + "/edit";
    if NoSlash(nodeId) && NoSlash(inputId) && NoSlash(extractorId) then
      SplitNoSlash(nodeId);
      SplitSnoc(nodeId, inputId);
      SplitSnoc(nodeId + "/" + inputId, "extractors");
      SplitSnoc(nodeId + "/" + inputId + "/" + "extractors", extractorId);
      SplitSnoc(nodeId + "/" + inputId + "/" + "extractors" + "/" + extractorId, "edit");
      r
    else r
  }

  // ---------------------------------------------------------------------------
  // Facts relating the builders
  // ---------------------------------------------------------------------------

  /** Different slash-free ids give different extractor paths. */
  lemma LocalInputExtractorsInjective(n1: string, i1: string, n2: string, i2: string)
    requires NoSlash(n1) && NoSlash(i1) && NoSlash(n2) && NoSlash(i2)
    requires LocalInputExtractors(n1, i1) == LocalInputExtractors(n2, i2)
    ensures n1 == n2 && i1 == i2
  {
    var segs := Split(LocalInputExtractors(n1, i1)[|SYSTEM_INPUTS| + 1..]);
    assert segs[0] == n1 && segs[1] == i1;
  }

  /** The global and the node-local extractors paths never coincide for slash-free ids. */
  lemma GlobalAndLocalExtractorsDiffer(inputId: string, nodeId: string, localInputId: string)
    requires NoSlash(inputId) && NoSlash(nodeId) && NoSlash(localInputId)
    ensures GlobalInputExtractors(inputId) != LocalInputExtractors(nodeId, localInputId)
  {
    var g := GlobalInputExtractors(inputId);
    var l := LocalInputExtractors(nodeId, localInputId);
    assert |Split(g[|SYSTEM_INPUTS| + 1..])| == 2;
    assert |Split(l[|SYSTEM_INPUTS| + 1..])| == 3;
  }

  /** With a '/' inside an id, two different id pairs build the same path. */
  lemma SlashMakesExtractorPathsAmbiguous()
    ensures LocalInputExtractors("a/b", "c") == LocalInputExtractors("a", "b/c")
  {
    assert "a/b" + "/" + "c" == "a" + "/" + "b/c";
  }

  /** The search page does not depend on the type argument. */
  lemma StreamSearchIgnoresType(streamId: string, query: string, t1: string, t2: string, range: string)
    ensures StreamSearch(streamId, query, t1, range) == StreamSearch(streamId, query, t2, range)
  {
  }
}
