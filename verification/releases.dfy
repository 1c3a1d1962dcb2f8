/**
 * The release listing: the GitHub API request for the most recent releases
 * and the filter that keeps only stable ones. The HTTP exchange and JSON
 * decoding are inputs.
 */
module Releases {
  import opened Wrappers
  import opened Text

  const ApiURL := "https://api.github.com/repos/golangci/golangci-lint/releases"
  const PageQuery := "?per_page="
  const StatusOK := 200

  /** A release as decoded from the API; the publication time is kept as an opaque integer. */
  datatype Release = Release(tagName: string, name: string, publishedAt: int, prerelease: bool, draft: bool)

  /** The request URL asking for `limit` releases, with the limit written in decimal (a leading '-' when negative). */
  function ReleasesURL(limit: int): string {
    ApiURL + PageQuery + IntToDecimal(limit)
  }

  /** The URL carries the limit: after the fixed prefix comes exactly its decimal rendering. */
  lemma ReleasesURLLimit(limit: int)
    ensures HasPrefix(ReleasesURL(limit), ApiURL + PageQuery)
    ensures var q := TrimPrefix(ReleasesURL(limit), ApiURL + PageQuery);
      && (limit >= 0 ==> AllDigits(q) && DecimalValue(q) == limit)
      && (limit < 0 ==> |q| >= 2 && q[0] == '-' && AllDigits(q[1..]) && DecimalValue(q[1..]) == -limit)
  {
    var u := ReleasesURL(limit);
    var p := ApiURL + PageQuery;
    assert u == p + IntToDecimal(limit);
    assert u[..|p|] == p;
    assert TrimPrefix(u, p) == IntToDecimal(limit) by {
      assert u[|p|..] == IntToDecimal(limit);
    }
  }

  /** How the request went: the transport failed (or no request could be built), or a response came back. */
  datatype Reply = TransportFailed | Reply(status: int, body: Decoded)

  /** Decoding the response body as a JSON list of releases. */
  datatype Decoded = Undecodable | Releases(releases: seq<Release>)

  datatype FetchError = RequestFailed | ApiError(status: int) | DecodeFailed

  predicate Stable(r: Release) { !r.draft && !r.prerelease }

  /** The stable releases, in their original order. */
  function Filter(rs: seq<Release>): (out: seq<Release>)
    ensures |out| <= |rs|
    ensures forall x :: x in out <==> x in rs && Stable(x)
  {
    if |rs| == 0 then []
    else
      var rest := Filter(rs[1..]);
      assert forall x :: x in rs <==> x == rs[0] || x in rs[1..] by { assert rs == [rs[0]] + rs[1..]; }
      if Stable(rs[0]) then [rs[0]] + rest else rest
  }

  /** Filtering distributes over concatenation, so the kept releases keep their relative order. */
  lemma {:induction false} FilterConcat(a: seq<Release>, b: seq<Release>)
    ensures Filter(a + b) == Filter(a) + Filter(b)
    decreases |a|
  {
    if |a| == 0 {
      assert a + b == b;
    } else {
      var ab := a + b;
      assert ab[0] == a[0] && ab[1..] == a[1..] + b;
      FilterConcat(a[1..], b);
      var head := if Stable(a[0]) then [a[0]] else [];
      assert Filter(ab) == head + Filter(a[1..] + b);
      assert Filter(a) == head + Filter(a[1..]);
      assert head + (Filter(a[1..]) + Filter(b)) == (head + Filter(a[1..])) + Filter(b);
    }
  }

  /** A list of stable releases comes back unchanged, and filtering twice is filtering once. */
  lemma {:induction false} FilterKeepsStable(rs: seq<Release>)
    ensures (forall i :: 0 <= i < |rs| ==> Stable(rs[i])) <==> Filter(rs) == rs
    ensures Filter(Filter(rs)) == Filter(rs)
    decreases |rs|
  {
    if |rs| > 0 {
      FilterKeepsStable(rs[1..]);
      if !Stable(rs[0]) {
        assert rs[0] !in Filter(rs);
      }
      var out := Filter(rs);
      assert forall i :: 0 <= i < |out| ==> Stable(out[i]) by {
        forall i | 0 <= i < |out| ensures Stable(out[i]) { assert out[i] in out; }
      }
      FilterAllStable(out);
    }
  }

  /** Filtering a list of stable releases changes nothing. */
  lemma {:induction false} FilterAllStable(rs: seq<Release>)
    requires forall i :: 0 <= i < |rs| ==> Stable(rs[i])
    ensures Filter(rs) == rs
    decreases |rs|
  {
    if |rs| > 0 {
      FilterAllStable(rs[1..]);
      assert rs == [rs[0]] + rs[1..];
    }
  }

  /**
   * FetchAvailableVersions: a transport failure, a status other than 200
   * or an undecodable body is an error; otherwise the stable releases, in
   * the order the API returned them.
   */
  function FetchAvailable(reply: Reply): (r: Result<seq<Release>, FetchError>)
    ensures r.Ok? <==> reply.Reply? && reply.status == StatusOK && reply.body.Releases?
    ensures reply.Reply? && reply.status != StatusOK ==> r == Err(ApiError(reply.status))
    ensures r.Ok? ==> forall x :: x in r.value <==> x in reply.body.releases && Stable(x)
  {
    match reply
    case TransportFailed => Err(RequestFailed)
    case Reply(status, body) =>
      if status != StatusOK then Err(ApiError(status))
      else match body
        case Undecodable => Err(DecodeFailed)
        case Releases(rs) => Ok(Filter(rs))
  }
}
