/**
  Properties that span both edge functions: what `shorten` writes to
  `links` is what `redirect` later resolves.
 */
module Lifecycle {
  import opened Wrappers
  import opened Http
  import opened Store
  import opened Shorten
  import opened Redirect

  /**
    The code a successful issuance returns is never empty, in any table, so
    `redirect` accepts it as an id: an alias is truthy, and a generated code
    has at least six symbols.
   */
  lemma IssuedCodeNonEmpty(
    rows: seq<Link>, req: ShortenRequest, protocolOf: string -> Option<string>,
    draws: seq<seq<Byte>>, now: int)
    requires DrawsFit(draws)
    requires Issue(rows, req, protocolOf, draws, now).outcome.Success?
    ensures Issue(rows, req, protocolOf, draws, now).outcome.value != ""
  {
    if Truthy(req.customAlias) {
      IssueWithAlias(rows, req, protocolOf, draws, draws, now);
    } else {
      IssueWithoutAlias(rows, req, protocolOf, draws, now);
    }
  }

  /**
    A row appended to a table that keeps its invariants is the only row its
    short id matches, as short id or as alias.
   */
  lemma AppendedRowIsSoleMatch(rows: seq<Link>, link: Link)
    requires UniqueKeys(rows + [link]) && AliasesAreCodes(rows + [link])
    ensures Select(rows + [link], ShortIdOrAliasIs(link.shortId)) == [link]
  {
    var rows' := rows + [link];
    forall l | l in rows
      ensures !Satisfies(l, ShortIdOrAliasIs(link.shortId))
    {
      var i :| 0 <= i < |rows| && rows[i] == l;
      assert rows'[i] == l && rows'[|rows|] == link;
    }
    SelectAppend(rows, link, ShortIdOrAliasIs(link.shortId));
  }

  /**
    A link appended to a table that keeps its invariants, under a non-empty
    code and not disabled, resolves to its URL until its expiry has passed.
   */
  lemma AppendedLinkResolves(rows: seq<Link>, link: Link, now: int)
    requires UniqueKeys(rows + [link]) && AliasesAreCodes(rows + [link])
    requires link.shortId != "" && !link.disabled
    ensures Resolve(rows + [link], JsString(link.shortId), now) ==
      if link.expiresAt.Some? && link.expiresAt.value < now then Failure(LinkExpired) else Success(link.longUrl)
  {
    AppendedRowIsSoleMatch(rows, link);
    ExpiryIsStrict(rows + [link], link.shortId, link, now);
  }

  /**
    A link just issued resolves to the URL it was issued for: forever when
    it was issued without an expiry, and otherwise up to and including its
    expiry instant, after which it is reported expired.
   */
  lemma IssuedLinkResolves(
    rows: seq<Link>, req: ShortenRequest, protocolOf: string -> Option<string>,
    draws: seq<seq<Byte>>, issuedAt: int, now: int)
    requires DrawsFit(draws) && UniqueKeys(rows) && AliasesAreCodes(rows)
    requires Issue(rows, req, protocolOf, draws, issuedAt).outcome.Success?
    ensures var r := Issue(rows, req, protocolOf, draws, issuedAt);
      !(req.expiryDays.JsNumber? && req.expiryDays.n > 0) ==>
        Resolve(r.rows, JsString(r.outcome.value), now) == Success(req.longUrl.s)
    ensures var r := Issue(rows, req, protocolOf, draws, issuedAt);
      req.expiryDays.JsNumber? && req.expiryDays.n > 0 ==>
        Resolve(r.rows, JsString(r.outcome.value), now) ==
          if now <= issuedAt + req.expiryDays.n * MsPerDay then Success(req.longUrl.s) else Failure(LinkExpired)
  {
    var r := Issue(rows, req, protocolOf, draws, issuedAt);
    var code := r.outcome.value;
    var link := Link(code, req.longUrl.s, if Truthy(req.customAlias) then Some(code) else None,
                     ExpiryFor(req.expiryDays, issuedAt), false);
    IssuedCodeNonEmpty(rows, req, protocolOf, draws, issuedAt);
    IssueKeepsInvariants(rows, req, protocolOf, draws, issuedAt);
    AppendedLinkResolves(rows, link, now);
  }

  /**
    Once an alias has been issued, a second request for the same alias is
    refused as taken, and the table is left as it was.
   */
  lemma AliasReuseTaken(
    rows: seq<Link>, req: ShortenRequest, req': ShortenRequest, protocolOf: string -> Option<string>,
    draws: seq<seq<Byte>>, draws': seq<seq<Byte>>, now: int, now': int)
    requires DrawsFit(draws) && DrawsFit(draws') && UniqueKeys(rows) && AliasesAreCodes(rows)
    requires Truthy(req.customAlias) && Issue(rows, req, protocolOf, draws, now).outcome.Success?
    requires req'.customAlias == req.customAlias && CheckLongUrl(req'.longUrl, protocolOf).Success?
    ensures var r := Issue(rows, req, protocolOf, draws, now);
      Issue(r.rows, req', protocolOf, draws', now') == Issuance(Failure(AliasTaken), r.rows)
  {
    var r := Issue(rows, req, protocolOf, draws, now);
    IssueWithAlias(rows, req, protocolOf, draws, draws, now);
    var a := r.outcome.value;
    var link := r.rows[|rows|];
    assert r.rows == rows + [link];
    IssueKeepsInvariants(rows, req, protocolOf, draws, now);
    assert Satisfies(link, AliasIs(a));
    assert link in r.rows;
    SingleFindsPresent(r.rows, AliasIs(a));
    assert CheckAlias(r.rows, req'.customAlias) == Failure(AliasTaken);
  }
}
