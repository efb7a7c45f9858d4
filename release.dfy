/**
 * Release metadata and the choice of the release to install (GetLatestReleaseV2).
 *
 * The loop replaces the tracked release only when the tracked version is strictly greater than
 * the new one, so what it returns is the release with the LOWEST version, the first one among
 * equals, although its documentation calls it the latest release. The model follows the code.
 * Each entry is taken as a copy of the list element.
 */
module Releases {
  import opened Wrappers
  import opened Uuids
  import opened SemVer
  import opened Network
  import opened Numeric

  /** A file entity of a release: its type is "release-archive" or "release", its size and original path may be missing. */
  datatype FileEntity = FileEntity(id: Uuid, url: string, fileType: string, size: Option<int>, originalPath: Option<string>)

  /** A release: a missing files list reads as no entities; archive tells which installer handles it. */
  datatype Release = Release(id: Uuid, version: string, files: seq<FileEntity>, archive: bool)

  datatype ApiError =
    | AppIdNotSet
    | RequestFailed
    | BadStatus(url: string, status: int, body: seq<byte>)
    | ReadBodyFailed
    | UnmarshalFailed
    | ParseFailed(version: string)
    | NotFound

  /** json.Unmarshal of the response into the app wrapper, giving the payload's release entities. */
  type Decoder = seq<byte> -> Option<seq<Release>>

  /** Every release before index n has a version the parser accepts. */
  predicate Parses(rs: seq<Release>, parse: Parser, n: nat)
    requires n <= |rs|
  {
    forall j :: 0 <= j < n ==> parse(rs[j].version).Some?
  }

  function VersionAt(rs: seq<Release>, parse: Parser, j: nat): Version
    requires j < |rs| && parse(rs[j].version).Some?
  {
    parse(rs[j].version).value
  }

  /**
   * Among the first n releases, m's version is not above that of any of the first n, and every
   * release before m has a strictly higher version.
   */
  predicate IsFirstMin(rs: seq<Release>, parse: Parser, n: nat, m: nat)
    requires n <= |rs|
  {
    Parses(rs, parse, n) && m < n &&
    (forall j :: 0 <= j < n ==> !GreaterThan(VersionAt(rs, parse, m), VersionAt(rs, parse, j))) &&
    (forall j :: 0 <= j < m ==> GreaterThan(VersionAt(rs, parse, j), VersionAt(rs, parse, m)))
  }

  /** There is only one first minimum. */
  lemma FirstMinUnique(rs: seq<Release>, parse: Parser, n: nat, m1: nat, m2: nat)
    requires n <= |rs| && IsFirstMin(rs, parse, n, m1) && IsFirstMin(rs, parse, n, m2)
    ensures m1 == m2
  {
    var v1, v2 := VersionAt(rs, parse, m1), VersionAt(rs, parse, m2);
    assert !GreaterThan(v1, v2) && !GreaterThan(v2, v1);
  }

  /**
   * A reference definition of the selection, from the head of the list: the head's version is
   * parsed first; the head is kept unless a later release is strictly lower.
   */
  function SelectIndex(rs: seq<Release>, parse: Parser): (r: Result<nat, ApiError>)
    ensures r.Success? ==> r.value < |rs| && Parses(rs, parse, |rs|)
    ensures r == Failure(NotFound) <==> rs == []
    decreases |rs|
  {
    if rs == [] then Failure(NotFound)
    else match parse(rs[0].version)
      case None => Failure(ParseFailed(rs[0].version))
      case Some(v) =>
        match SelectIndex(rs[1..], parse)
        case Failure(e) => if e == NotFound then Success(0) else Failure(e)
        case Success(m) => if GreaterThan(v, VersionAt(rs[1..], parse, m)) then Success(m + 1) else Success(0)
  }

  /** The release chosen: the first minimum of the whole list. */
  lemma {:induction false} SelectIndexIsFirstMin(rs: seq<Release>, parse: Parser)
    requires SelectIndex(rs, parse).Success?
    ensures IsFirstMin(rs, parse, |rs|, SelectIndex(rs, parse).value)
    decreases |rs|
  {
    var v := VersionAt(rs, parse, 0);
    var rest := rs[1..];
    assert forall j :: 1 <= j < |rs| ==> rs[j] == rest[j - 1];
    NotGreaterRefl(v);
    match SelectIndex(rest, parse)
    case Failure(_) =>
    case Success(m) =>
      SelectIndexIsFirstMin(rest, parse);
      var u := VersionAt(rest, parse, m);
      assert forall j :: 1 <= j < |rs| ==> !GreaterThan(u, VersionAt(rs, parse, j)) by {
        forall j | 1 <= j < |rs| ensures !GreaterThan(u, VersionAt(rs, parse, j)) {
          assert VersionAt(rs, parse, j) == VersionAt(rest, parse, j - 1);
        }
      }
      if GreaterThan(v, u) {
        GreaterAsym(v, u);
        forall j | 1 <= j < m + 1 ensures GreaterThan(VersionAt(rs, parse, j), u) {
          assert VersionAt(rs, parse, j) == VersionAt(rest, parse, j - 1);
        }
      } else {
        forall j | 1 <= j < |rs| ensures !GreaterThan(v, VersionAt(rs, parse, j)) {
          NotGreaterTrans(v, u, VersionAt(rs, parse, j));
        }
      }
  }

  /** A non-empty list whose versions all parse has a selection. */
  lemma {:induction false} SelectIndexSucceeds(rs: seq<Release>, parse: Parser)
    requires rs != [] && Parses(rs, parse, |rs|)
    ensures SelectIndex(rs, parse).Success?
    decreases |rs|
  {
    if |rs| > 1 {
      assert forall j :: 0 <= j < |rs| - 1 ==> rs[1..][j] == rs[j + 1];
      SelectIndexSucceeds(rs[1..], parse);
    }
  }

  /** The first version that does not parse is the error, whatever comes after it. */
  lemma {:induction false} SelectIndexParseError(rs: seq<Release>, parse: Parser, i: nat)
    requires i < |rs| && Parses(rs, parse, i) && parse(rs[i].version).None?
    ensures SelectIndex(rs, parse) == Failure(ParseFailed(rs[i].version))
    decreases i
  {
    if i > 0 {
      assert forall j :: 0 <= j < i - 1 ==> rs[1..][j] == rs[j + 1];
      SelectIndexParseError(rs[1..], parse, i - 1);
    }
  }

  /** The fold of GetLatestReleaseV2 over the release entities, in list order. */
  method SelectRelease(rs: seq<Release>, parse: Parser) returns (r: Result<Release, ApiError>)
    ensures SelectIndex(rs, parse).Success? ==> r == Success(rs[SelectIndex(rs, parse).value])
    ensures SelectIndex(rs, parse).Failure? ==> r == Failure(SelectIndex(rs, parse).error)
  {
    var latest: Option<(Release, Version)> := None;
    ghost var best: nat := 0;
    var i := 0;
    while i < |rs|
      invariant 0 <= i <= |rs| && Parses(rs, parse, i)
      invariant latest.None? <==> i == 0
      invariant latest.Some? ==>
        IsFirstMin(rs, parse, i, best) && latest.value == (rs[best], VersionAt(rs, parse, best))
    {
      var release := rs[i];
      var parsed := parse(release.version);
      if parsed.None? {
        SelectIndexParseError(rs, parse, i);
        return Failure(ParseFailed(release.version));
      }
      var w := parsed.value;
      if latest.None? {
        latest, best := Some((release, w)), i;
        NotGreaterRefl(w);
      } else if GreaterThan(latest.value.1, w) {
        assert w == VersionAt(rs, parse, i);
        forall j | 0 <= j < i ensures GreaterThan(VersionAt(rs, parse, j), w) && !GreaterThan(w, VersionAt(rs, parse, j)) {
          BelowNotGreater(w, latest.value.1, VersionAt(rs, parse, j));
          GreaterAsym(VersionAt(rs, parse, j), w);
        }
        NotGreaterRefl(w);
        latest, best := Some((release, w)), i;
      }
      i := i + 1;
    }
    if latest.None? {
      return Failure(NotFound);
    }
    SelectIndexSucceeds(rs, parse);
    SelectIndexIsFirstMin(rs, parse);
    FirstMinUnique(rs, parse, |rs|, best, SelectIndex(rs, parse).value);
    r := Success(latest.value.0);
  }

  /** The selection returns the lowest version, not the highest: of 2.0.0 and then 1.0.0 it picks 1.0.0. */
  lemma SelectsLowestVersion(a: Release, b: Release, parse: Parser)
    requires parse(a.version) == Some(Version(2, 0, 0, [], "")) && parse(b.version) == Some(Version(1, 0, 0, [], ""))
    ensures SelectIndex([a, b], parse) == Success(1)
  {
    assert [a, b][1..] == [b];
    assert [b][1..] == [];
    assert SelectIndex([b], parse) == Success(0);
    assert GreaterThan(Version(2, 0, 0, [], ""), Version(1, 0, 0, [], ""));
  }

  /** The request GetLatestReleaseV2 makes: the public app endpoint, filtered by platform. */
  function ReleaseUrl(api2Root: string, id: Uuid, platform: string): string {
    api2Root + "/apps/public/" + ToString(id) + "?platform=" + platform
  }

  /** What GetLatestReleaseV2 returns for the reply to its request. */
  function ReleaseOutcome(url: string, reply: Reply, decode: Decoder, parse: Parser): (r: Result<Release, ApiError>)
    ensures reply.Unreachable? ==> r == Failure(RequestFailed)
    ensures reply.Response? && reply.status >= 400 ==>
      r == if reply.bodyFails then Failure(ReadBodyFailed) else Failure(BadStatus(url, reply.status, Concat(reply.chunks)))
    ensures r.Success? ==>
      reply.Response? && reply.status < 400 && !reply.bodyFails && decode(Concat(reply.chunks)).Some? &&
      r.value in decode(Concat(reply.chunks)).value
  {
    match reply
    case Unreachable => Failure(RequestFailed)
    case Response(status, _, _, _) =>
      match ReadAll(reply)
      case None => Failure(ReadBodyFailed)
      case Some(body) =>
        if status >= 400 then Failure(BadStatus(url, status, body))
        else match decode(body)
          case None => Failure(UnmarshalFailed)
          case Some(rs) => match SelectIndex(rs, parse) case Success(m) => Success(rs[m]) case Failure(e) => Failure(e)
  }

  /** GetLatestReleaseV2: a nil id fails before any request; otherwise one request, and its reply decides. */
  method GetLatestReleaseV2(net: Network, api2Root: string, id: Uuid, platform: string, decode: Decoder, parse: Parser)
    returns (r: Result<Release, ApiError>)
    modifies net
    ensures IsNil(id) ==> r == Failure(AppIdNotSet) && net.requested == old(net.requested)
    ensures !IsNil(id) ==>
      var url := ReleaseUrl(api2Root, id, platform);
      net.requested == old(net.requested) + [url] && r == ReleaseOutcome(url, net.serve(url), decode, parse)
  {
    if IsNil(id) {
      return Failure(AppIdNotSet);
    }
    var url := api2Root + "/apps/public/" + ToString(id) + "?platform=" + platform;
    var reply := net.Get(url);
    if reply.Unreachable? {
      return Failure(RequestFailed);
    }
    var body := ReadAll(reply);
    if body.None? {
      return Failure(ReadBodyFailed);
    }
    if reply.status >= 400 {
      return Failure(BadStatus(url, reply.status, body.value));
    }
    var payload := decode(body.value);
    if payload.None? {
      return Failure(UnmarshalFailed);
    }
    r := SelectRelease(payload.value, parse);
  }
}
