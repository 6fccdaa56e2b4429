/**
  The `shorten` edge function: validates a long URL and an optional alias,
  picks a short id (the alias itself, or a random Base62 code re-drawn on
  collision), computes the expiry and inserts the link.

  The random bytes `crypto.getRandomValues` would supply, the result of
  WHATWG URL parsing and the current time are parameters.
 */
module Shorten {
  import opened Wrappers
  import opened Http
  import opened Store

  type Byte = b: int | 0 <= b < 256

  // ---------------------------------------------------------------------
  // Code generator

  /** `count` consecutive characters from `first` on. */
  function Run(first: char, count: nat): string
    requires first as int + count <= 0xD800
  {
    seq(count, i requires 0 <= i < count => (first as int + i) as char)
  }

  const Digits: string := Run('0', 10)
  const Upper: string := Run('A', 26)
  const Lower: string := Run('a', 26)

  /** The 62 symbols of a generated code, in the source's order. */
  const Base62: string := Digits + Upper + Lower

  /** The code that a sequence of random bytes selects: symbol `b % 62` for each byte `b`. */
  function Encode(bytes: seq<Byte>): string {
    seq(|bytes|, i requires 0 <= i < |bytes| => Base62[bytes[i] % |Base62|])
  }

  /**
    `generateShortId(length)`: `bytes` is the buffer of `length` random bytes,
    and the loop appends one symbol per byte.
   */
  method GenerateShortId(length: nat, bytes: seq<Byte>) returns (code: string)
    requires |bytes| == length
    ensures |code| == length
    ensures forall i :: 0 <= i < length ==> code[i] == Base62[bytes[i] % 62]
    ensures code == Encode(bytes)
  {
    code := "";
    var i := 0;
    while i < length
      invariant 0 <= i <= length
      invariant code == Encode(bytes[..i])
    {
      assert bytes[..i + 1] == bytes[..i] + [bytes[i]];
      code := code + [Base62[bytes[i] % |Base62|]];
      i := i + 1;
    }
    assert bytes[..length] == bytes;
  }

  /** The position of a character in Base62, or -1 for a character outside it. */
  function SymbolIndex(c: char): int {
    if '0' <= c <= '9' then c as int - '0' as int
    else if 'A' <= c <= 'Z' then c as int - 'A' as int + 10
    else if 'a' <= c <= 'z' then c as int - 'a' as int + 36
    else -1
  }

  /** A string whose characters ascend one code point at a time is a run. */
  lemma RunIsLiteral(first: char, lit: string)
    requires first as int + |lit| <= 0xD800
    requires forall i :: 0 <= i < |lit| ==> lit[i] as int == first as int + i
    ensures Run(first, |lit|) == lit
  {
  }

  /** The alphabet spelled out: the digits, then the upper-case and lower-case letters. */
  lemma Base62Literal()
    ensures Base62 == "0123456789" + "ABCDEFGHIJKLMNOPQRSTUVWXYZ" + "abcdefghijklmnopqrstuvwxyz"
  {
    RunIsLiteral('0', "0123456789");
    RunIsLiteral('A', "ABCDEFGHIJKLMNOPQRSTUVWXYZ");
    RunIsLiteral('a', "abcdefghijklmnopqrstuvwxyz");
  }

  /** Base62 has 62 distinct symbols: SymbolIndex inverts indexing. */
  lemma Base62Indexing(j: nat)
    requires j < 62
    ensures |Base62| == 62
    ensures SymbolIndex(Base62[j]) == j
  {
    if j < 10 {
      assert Base62[j] == Digits[j];
    } else if j < 36 {
      assert Base62[j] == Upper[j - 10];
    } else {
      assert Base62[j] == Lower[j - 36];
    }
  }

  /**
    A code keeps, for each byte, exactly its residue modulo 62: decoding the
    code gives back the residues, so two draws give the same code exactly
    when they agree modulo 62 position by position.
   */
  lemma EncodeDecode(bytes: seq<Byte>)
    ensures |Encode(bytes)| == |bytes|
    ensures forall i :: 0 <= i < |bytes| ==> SymbolIndex(Encode(bytes)[i]) == bytes[i] % 62
  {
    forall i | 0 <= i < |bytes|
      ensures SymbolIndex(Encode(bytes)[i]) == bytes[i] % 62
    {
      Base62Indexing(bytes[i] % 62);
    }
  }

  /** Every symbol of a code is an ASCII digit or letter. */
  lemma EncodeAlphabet(bytes: seq<Byte>)
    ensures forall i :: 0 <= i < |Encode(bytes)| ==>
      var c := Encode(bytes)[i]; '0' <= c <= '9' || 'A' <= c <= 'Z' || 'a' <= c <= 'z'
  {
    EncodeDecode(bytes);
  }

  /**
    The bytes that select symbol `j`: 4 for every symbol, and a fifth
    (248 + j) for the first 8 symbols, which is the modulo bias of `% 62`.
   */
  function Preimage(j: nat): seq<int>
    requires j < 62
  {
    [j, j + 62, j + 124, j + 186] + (if j < 8 then [j + 248] else [])
  }

  lemma ModuloBias(j: nat, b: Byte)
    requires j < 62
    ensures b % 62 == j <==> b in Preimage(j)
    ensures |Preimage(j)| == if j < 8 then 5 else 4
  {
  }

  // ---------------------------------------------------------------------
  // Errors the handler throws, and the 400 response it turns them into

  datatype ShortenError =
    | InvalidUrl             // empty or non-string longUrl
    | InvalidUrlFormat       // `new URL` throws, or the scheme is not http/https
    | AliasNotText           // a truthy non-string alias: `alias.toLowerCase` is not a function
    | AliasReserved
    | AliasMalformed
    | AliasTaken
    | GenerationExhausted
    | CreateFailed           // the insert was rejected
    | InvalidTimeValue       // `toISOString` on an expiry outside the Date range

  function Message(e: ShortenError): string {
    match e
    case InvalidUrl => "Invalid URL"
    case InvalidUrlFormat => "Invalid URL format"
    case AliasNotText => "alias.toLowerCase is not a function"
    case AliasReserved => "This alias is reserved"
    case AliasMalformed => "Alias must be 3-50 characters (letters, numbers, hyphens, underscores)"
    case AliasTaken => "This alias is already taken"
    case GenerationExhausted => "Failed to generate unique short ID"
    case CreateFailed => "Failed to create short link"
    case InvalidTimeValue => "Invalid time value"
  }

  /** The response: the short id with status 200, or any thrown error as `{error: message}` with status 400. */
  function ShortenResponse(outcome: Result<string, ShortenError>): (resp: Response)
    ensures resp.status == BadRequest <==> outcome.Failure?
    ensures outcome.Failure? ==> resp.body == ErrorBody(Message(outcome.error))
    ensures outcome.Success? ==> resp == Response(Ok, ShortIdBody(outcome.value))
  {
    match outcome
    case Success(id) => Response(Ok, ShortIdBody(id))
    case Failure(e) => Response(BadRequest, ErrorBody(Message(e)))
  }

  // ---------------------------------------------------------------------
  // Alias validator

  const ReservedAliases: seq<string> := ["admin", "stats", "result", "auth", "api", "health"]

  function LowerChar(c: char): char {
    if 'A' <= c <= 'Z' then (c as int + 32) as char else c
  }

  /** `toLowerCase`, on ASCII letters (see README for why that suffices here). */
  function ToLower(s: string): string {
    seq(|s|, i requires 0 <= i < |s| => LowerChar(s[i]))
  }

  predicate IsAliasChar(c: char) {
    'A' <= c <= 'Z' || 'a' <= c <= 'z' || '0' <= c <= '9' || c == '_' || c == '-'
  }

  /** `/^[A-Za-z0-9_-]{3,50}$/.test(s)` */
  predicate MatchesAliasPattern(s: string) {
    3 <= |s| <= 50 && forall i :: 0 <= i < |s| ==> IsAliasChar(s[i])
  }

  datatype AliasVerdict = AliasValid | AliasRejected(error: ShortenError)

  /**
    `validateCustomAlias`: no alias is valid; otherwise the reserved check on
    the lower-cased alias comes first, then the format check.
   */
  function ValidateCustomAlias(alias: Option<string>): (v: AliasVerdict)
    ensures v.AliasRejected? ==> v.error == AliasReserved || v.error == AliasMalformed
    ensures alias.None? || alias == Some("") ==> v == AliasValid
    ensures v == AliasValid && alias.Some? && alias.value != "" ==>
      MatchesAliasPattern(alias.value) && forall w :: w in ReservedAliases ==> ToLower(alias.value) != w
  {
    if alias.None? || alias.value == "" then AliasValid
    else if ToLower(alias.value) in ReservedAliases then AliasRejected(AliasReserved)
    else if !MatchesAliasPattern(alias.value) then AliasRejected(AliasMalformed)
    else AliasValid
  }

  /**
    Any casing of a reserved word ("Admin", "API") is rejected as reserved,
    although it would pass the format check: the order of the checks decides
    the error.
   */
  lemma ReservedBeforeFormat(a: string)
    requires ToLower(a) in ReservedAliases
    ensures ValidateCustomAlias(Some(a)) == AliasRejected(AliasReserved)
    ensures MatchesAliasPattern(a)
  {
    var w := ToLower(a);
    assert |w| == |a|;
    forall i | 0 <= i < |a|
      ensures IsAliasChar(a[i])
    {
      assert 'a' <= w[i] <= 'z';
      assert w[i] == LowerChar(a[i]);
    }
  }

  /** A non-reserved, non-empty alias is valid exactly when it is 3 to 50 characters of `[A-Za-z0-9_-]`. */
  lemma ValidIffPattern(a: string)
    requires a != "" && ToLower(a) !in ReservedAliases
    ensures ValidateCustomAlias(Some(a)) == AliasValid <==> MatchesAliasPattern(a)
    ensures ValidateCustomAlias(Some(a)) != AliasValid ==> ValidateCustomAlias(Some(a)) == AliasRejected(AliasMalformed)
  {
  }

  // ---------------------------------------------------------------------
  // The long URL

  /**
    Lines 55-66. `protocolOf(s)` is what `new URL(s).protocol` yields, None
    when the constructor throws. The protocol error raised inside the `try`
    is replaced by the catch's 'Invalid URL format'.
   */
  function CheckLongUrl(longUrl: JsValue, protocolOf: string -> Option<string>): (r: Result<string, ShortenError>)
    ensures r.Success? <==>
      longUrl.JsString? && longUrl.s != "" && protocolOf(longUrl.s) in {Some("http:"), Some("https:")}
    ensures r.Success? ==> r.value == longUrl.s
    ensures r.Failure? ==> r.error == if longUrl.JsString? && longUrl.s != "" then InvalidUrlFormat else InvalidUrl
  {
    if !Truthy(longUrl) || !longUrl.JsString? then Failure(InvalidUrl)
    else
      match protocolOf(longUrl.s)
      case None => Failure(InvalidUrlFormat)
      case Some(p) => if p in ["http:", "https:"] then Success(longUrl.s) else Failure(InvalidUrlFormat)
  }

  // ---------------------------------------------------------------------
  // The alias in the request

  /**
    Lines 69-85: a truthy alias is validated and must not be taken yet,
    as seen by `.eq('custom_alias', alias).single()`. Yields the alias to
    store, None when the request has none.
   */
  function CheckAlias(rows: seq<Link>, customAlias: JsValue): (r: Result<Option<string>, ShortenError>)
    ensures r == Success(None) <==> !Truthy(customAlias)
    ensures Truthy(customAlias) && !customAlias.JsString? ==> r == Failure(AliasNotText)
    ensures Truthy(customAlias) && customAlias.JsString? ==>
      match ValidateCustomAlias(Some(customAlias.s))
      case AliasRejected(e) => r == Failure(e)
      case AliasValid =>
        r == if Single(Select(rows, AliasIs(customAlias.s))).Some? then Failure(AliasTaken)
             else Success(Some(customAlias.s))
    ensures r.Success? && r.value.Some? ==>
      customAlias == JsString(r.value.value) && ValidateCustomAlias(r.value) == AliasValid &&
      Single(Select(rows, AliasIs(r.value.value))).None?
  {
    if !Truthy(customAlias) then Success(None)
    else if !customAlias.JsString? then Failure(AliasNotText)
    else
      match ValidateCustomAlias(Some(customAlias.s))
      case AliasRejected(e) => Failure(e)
      case AliasValid =>
        if Single(Select(rows, AliasIs(customAlias.s))).Some? then Failure(AliasTaken)
        else Success(Some(customAlias.s))
  }

  // ---------------------------------------------------------------------
  // Collision loop

  const MaxAttempts: nat := 5

  /**
    Length of the k-th generated code: 6 for the first; the one drawn after
    `attempts + 1` collisions has `6 + floor(attempts / 2)` symbols, so
    candidate k >= 1 has `6 + floor((k - 1) / 2)`.
   */
  function CandidateLength(k: nat): nat {
    if k == 0 then 6 else 6 + (k - 1) / 2
  }

  /** `draws[k]` is the buffer the k-th call of `generateShortId` fills. */
  predicate DrawsFit(draws: seq<seq<Byte>>) {
    |draws| == MaxAttempts + 1 && forall k :: 0 <= k < |draws| ==> |draws[k]| == CandidateLength(k)
  }

  function Candidate(draws: seq<seq<Byte>>, k: nat): (code: string)
    requires DrawsFit(draws) && k <= MaxAttempts
    ensures |code| == CandidateLength(k)
  {
    Encode(draws[k])
  }

  /** The collision check: `.eq('short_id', code).single()` returned a row. */
  predicate Taken(rows: seq<Link>, code: string) {
    Single(Select(rows, ShortIdIs(code))).Some?
  }

  /**
    The codes that buffers of random bytes select, one per buffer, in order:
    applied to the draws, the codes the six calls of `generateShortId` return.
   */
  function EncodeEach(buffers: seq<seq<Byte>>): (codes: seq<string>)
    ensures |codes| == |buffers|
    ensures forall k :: 0 <= k < |buffers| ==> codes[k] == Encode(buffers[k])
  {
    if buffers == [] then []
    else EncodeEach(buffers[..|buffers| - 1]) + [Encode(buffers[|buffers| - 1])]
  }

  /** The first index from `from` on, and before `bound`, whose flag is false; `bound` when there is none. */
  function FirstFalse(flags: seq<bool>, from: nat, bound: nat): (n: nat)
    requires from <= bound < |flags|
    ensures from <= n <= bound
    ensures forall i :: from <= i < n ==> flags[i]
    ensures n < bound ==> !flags[n]
    decreases bound - from
  {
    if from == bound || !flags[from] then from else FirstFalse(flags, from + 1, bound)
  }

  /** For each code, whether the collision check finds it taken. */
  function TakenFlags(rows: seq<Link>, codes: seq<string>): (flags: seq<bool>)
    ensures |flags| == |codes|
    ensures forall i :: 0 <= i < |codes| ==> flags[i] == Taken(rows, codes[i])
  {
    if codes == [] then []
    else TakenFlags(rows, codes[..|codes| - 1]) + [Taken(rows, codes[|codes| - 1])]
  }

  /**
    The number of collisions the loop meets from candidate `from` on: the
    index of the first candidate found free, or MaxAttempts when none is.
   */
  function Collisions(rows: seq<Link>, codes: seq<string>, from: nat): (n: nat)
    requires from <= MaxAttempts < |codes|
    ensures from <= n <= MaxAttempts
    ensures forall i :: from <= i < n ==> Taken(rows, codes[i])
    ensures n < MaxAttempts ==> !Taken(rows, codes[n])
  {
    FirstFalse(TakenFlags(rows, codes), from, MaxAttempts)
  }

  /**
    Lines 88-110 without an alias: check candidates in turn, at most
    MaxAttempts times, widening the code every second regeneration.
   */
  method PickShortId(store: LinkStore, draws: seq<seq<Byte>>) returns (outcome: Result<string, ShortenError>, attempts: nat)
    requires DrawsFit(draws)
    ensures attempts == Collisions(store.rows, EncodeEach(draws), 0)
    ensures attempts <= MaxAttempts
    ensures forall i :: 0 <= i < attempts ==> Taken(store.rows, Candidate(draws, i))
    ensures attempts < MaxAttempts ==>
      outcome == Success(Candidate(draws, attempts)) && !Taken(store.rows, outcome.value) &&
      6 <= |outcome.value| <= 7
    ensures attempts == MaxAttempts ==> outcome == Failure(GenerationExhausted)
  {
    ghost var codes := EncodeEach(draws);
    var shortId := GenerateShortId(6, draws[0]);
    attempts := 0;
    while attempts < MaxAttempts
      invariant 0 <= attempts <= MaxAttempts
      invariant shortId == codes[attempts] == Candidate(draws, attempts)
      invariant Collisions(store.rows, codes, attempts) == Collisions(store.rows, codes, 0)
      invariant forall i :: 0 <= i < attempts ==> Taken(store.rows, codes[i])
    {
      var existing := store.SelectSingle(ShortIdIs(shortId));
      if existing.None? {
        break;
      }
      shortId := GenerateShortId(6 + attempts / 2, draws[attempts + 1]);
      attempts := attempts + 1;
    }
    if attempts >= MaxAttempts {
      outcome := Failure(GenerationExhausted);
    } else {
      outcome := Success(shortId);
    }
  }

  /** The short id: the alias when there is one (no loop runs), else the first free candidate. */
  function ChooseShortId(rows: seq<Link>, alias: Option<string>, draws: seq<seq<Byte>>): (r: Result<string, ShortenError>)
    requires DrawsFit(draws)
    ensures alias.Some? ==> r == Success(alias.value)
    ensures alias.None? ==>
      (r.Failure? <==> forall k :: 0 <= k < MaxAttempts ==> Taken(rows, Candidate(draws, k)))
    ensures alias.None? && r.Failure? ==> r.error == GenerationExhausted
    ensures alias.None? && r.Success? ==>
      !Taken(rows, r.value) && 6 <= |r.value| <= 7 &&
      exists k :: 0 <= k < MaxAttempts && r.value == Candidate(draws, k) &&
        forall i :: 0 <= i < k ==> Taken(rows, Candidate(draws, i))
  {
    if alias.Some? then Success(alias.value)
    else
      var n := Collisions(rows, EncodeEach(draws), 0);
      if n < MaxAttempts then Success(Candidate(draws, n)) else Failure(GenerationExhausted)
  }

  // ---------------------------------------------------------------------
  // Expiry

  const MsPerDay: int := 86_400_000

  /** A Date's time value lies within 8.64e15 ms of the epoch (section 21.4.1.1 of ECMA-262). */
  const MaxTimeMs: int := 8_640_000_000_000_000

  /**
    Lines 113-118: an expiry is set only for a number of days greater than
    zero, and then lies that many days after `now`.
   */
  function ExpiryFor(expiryDays: JsValue, now: int): (r: Option<int>)
    ensures r.Some? <==> expiryDays.JsNumber? && expiryDays.n > 0
    ensures r.Some? ==> r.value == now + expiryDays.n * MsPerDay && r.value > now
  {
    if Truthy(expiryDays) && expiryDays.JsNumber? && expiryDays.n > 0 then Some(now + expiryDays.n * MsPerDay)
    else None
  }

  /**
    Whether `toISOString` can print the expiry: a Date pushed past the time
    range by `setDate` holds NaN, and printing it throws a RangeError.
   */
  predicate ExpiryRepresentable(expiry: Option<int>) {
    expiry.None? || -MaxTimeMs <= expiry.value <= MaxTimeMs
  }

  /**
    From the instant `now` on, an expiry of 100 000 001 days or more lies past
    the time range, while one of at most 100 000 000 days from the epoch or
    earlier is printable.
   */
  lemma ExpiryRange(days: int, now: int)
    requires 0 <= now <= MaxTimeMs
    ensures days > 100_000_000 ==> !ExpiryRepresentable(ExpiryFor(JsNumber(days), now))
    ensures now == 0 && days <= 100_000_000 ==> ExpiryRepresentable(ExpiryFor(JsNumber(days), now))
  {
  }

  // ---------------------------------------------------------------------
  // The handler

  datatype ShortenRequest = ShortenRequest(longUrl: JsValue, customAlias: JsValue, expiryDays: JsValue)

  /** What a request leads to: the handler's outcome and the rows afterwards. */
  datatype Issuance = Issuance(outcome: Result<string, ShortenError>, rows: seq<Link>)

  /** The handler's body (lines 52-143) on the rows of `links`. */
  function Issue(
    rows: seq<Link>, req: ShortenRequest, protocolOf: string -> Option<string>,
    draws: seq<seq<Byte>>, now: int): (r: Issuance)
    requires DrawsFit(draws)
    ensures CheckLongUrl(req.longUrl, protocolOf).Failure? ==>
      r.outcome == Failure(CheckLongUrl(req.longUrl, protocolOf).error)
    ensures r.outcome.Failure? ==> r.rows == rows
    ensures r.outcome.Success? ==>
      req.longUrl.JsString? && ExpiryRepresentable(ExpiryFor(req.expiryDays, now)) &&
      r.rows == rows + [Link(r.outcome.value, req.longUrl.s,
                             if Truthy(req.customAlias) then Some(r.outcome.value) else None,
                             ExpiryFor(req.expiryDays, now), false)]
  {
    match CheckLongUrl(req.longUrl, protocolOf)
    case Failure(e) => Issuance(Failure(e), rows)
    case Success(url) =>
      match CheckAlias(rows, req.customAlias)
      case Failure(e) => Issuance(Failure(e), rows)
      case Success(alias) =>
        match ChooseShortId(rows, alias, draws)
        case Failure(e) => Issuance(Failure(e), rows)
        case Success(code) =>
          var expiry := ExpiryFor(req.expiryDays, now);
          if !ExpiryRepresentable(expiry) then Issuance(Failure(InvalidTimeValue), rows)
          else
            var link := Link(code, url, alias, expiry, false);
            if Admits(rows, link) then Issuance(Success(code), rows + [link])
            else Issuance(Failure(CreateFailed), rows)
  }

  /** The edge function, step by step against the store. */
  method HandleShorten(
    store: LinkStore, req: ShortenRequest, protocolOf: string -> Option<string>,
    draws: seq<seq<Byte>>, now: int) returns (resp: Response)
    requires DrawsFit(draws)
    modifies store
    ensures old(store.Valid()) ==> store.Valid()
    ensures store.rows == Issue(old(store.rows), req, protocolOf, draws, now).rows
    ensures resp == ShortenResponse(Issue(old(store.rows), req, protocolOf, draws, now).outcome)
  {
    var url := CheckLongUrl(req.longUrl, protocolOf);
    if url.Failure? {
      return ShortenResponse(Failure(url.error));
    }
    var alias: Option<string> := None;
    if Truthy(req.customAlias) {
      if !req.customAlias.JsString? {
        return ShortenResponse(Failure(AliasNotText));
      }
      var verdict := ValidateCustomAlias(Some(req.customAlias.s));
      if verdict.AliasRejected? {
        return ShortenResponse(Failure(verdict.error));
      }
      var existing := store.SelectSingle(AliasIs(req.customAlias.s));
      if existing.Some? {
        return ShortenResponse(Failure(AliasTaken));
      }
      alias := Some(req.customAlias.s);
    }
    var shortId: string;
    if alias.Some? {
      shortId := alias.value;
    } else {
      var picked, _ := PickShortId(store, draws);
      if picked.Failure? {
        return ShortenResponse(picked);
      }
      shortId := picked.value;
    }
    var expiry := ExpiryFor(req.expiryDays, now);
    if !ExpiryRepresentable(expiry) {
      return ShortenResponse(Failure(InvalidTimeValue));
    }
    var link := Link(shortId, url.value, alias, expiry, false);
    ghost var before := store.rows;
    var ok := store.Insert(link);
    if !ok {
      return ShortenResponse(Failure(CreateFailed));
    }
    if UniqueKeys(before) && AliasesAreCodes(before) {
      InsertKeepsInvariants(before, link);
    }
    resp := ShortenResponse(Success(shortId));
  }

  // ---------------------------------------------------------------------
  // What issuance promises

  /** Issuance keeps the table's unique constraints and the alias-is-code invariant. */
  lemma IssueKeepsInvariants(
    rows: seq<Link>, req: ShortenRequest, protocolOf: string -> Option<string>,
    draws: seq<seq<Byte>>, now: int)
    requires DrawsFit(draws)
    requires UniqueKeys(rows) && AliasesAreCodes(rows)
    ensures var r := Issue(rows, req, protocolOf, draws, now);
      UniqueKeys(r.rows) && AliasesAreCodes(r.rows)
  {
    var r := Issue(rows, req, protocolOf, draws, now);
    if r.outcome.Success? {
      var link := r.rows[|rows|];
      assert r.rows == rows + [link];
      InsertKeepsInvariants(rows, link);
    }
  }

  /**
    With an alias, the alias itself becomes the short id, and the random
    draws play no part: the collision loop does not run.
   */
  lemma IssueWithAlias(
    rows: seq<Link>, req: ShortenRequest, protocolOf: string -> Option<string>,
    draws: seq<seq<Byte>>, draws': seq<seq<Byte>>, now: int)
    requires DrawsFit(draws) && DrawsFit(draws')
    requires Truthy(req.customAlias)
    ensures Issue(rows, req, protocolOf, draws, now) == Issue(rows, req, protocolOf, draws', now)
    ensures var r := Issue(rows, req, protocolOf, draws, now);
      r.outcome.Success? ==> req.customAlias == JsString(r.outcome.value)
  {
  }

  /**
    A string alias decides the request once the URL is accepted: a
    validator rejection is thrown with the validator's own error; a valid
    alias that a row holds as `custom_alias` fails as taken; and a valid alias
    that no row holds as short id is inserted as the short id, unless the
    expiry cannot be printed.
   */
  lemma IssueAliasOutcome(
    rows: seq<Link>, req: ShortenRequest, protocolOf: string -> Option<string>,
    draws: seq<seq<Byte>>, now: int, a: string)
    requires DrawsFit(draws)
    requires UniqueKeys(rows) && AliasesAreCodes(rows)
    requires CheckLongUrl(req.longUrl, protocolOf).Success?
    requires req.customAlias == JsString(a) && a != ""
    ensures ValidateCustomAlias(Some(a)).AliasRejected? ==>
      Issue(rows, req, protocolOf, draws, now) == Issuance(Failure(ValidateCustomAlias(Some(a)).error), rows)
    ensures ValidateCustomAlias(Some(a)) == AliasValid && (exists l :: l in rows && l.customAlias == Some(a)) ==>
      Issue(rows, req, protocolOf, draws, now) == Issuance(Failure(AliasTaken), rows)
    ensures ValidateCustomAlias(Some(a)) == AliasValid && (forall l :: l in rows ==> l.shortId != a) ==>
      Issue(rows, req, protocolOf, draws, now) ==
        if ExpiryRepresentable(ExpiryFor(req.expiryDays, now))
        then Issuance(Success(a), rows + [Link(a, req.longUrl.s, Some(a), ExpiryFor(req.expiryDays, now), false)])
        else Issuance(Failure(InvalidTimeValue), rows)
  {
    SingleFindsPresent(rows, AliasIs(a));
    if ValidateCustomAlias(Some(a)) == AliasValid && (forall l :: l in rows ==> l.shortId != a) {
      forall l | l in rows
        ensures l.customAlias != Some(a)
      {
      }
      assert CheckAlias(rows, req.customAlias) == Success(Some(a));
    }
  }

  /** Without an alias, the outcome is decided by the first free candidate and the insert. */
  lemma IssueWithoutAlias(
    rows: seq<Link>, req: ShortenRequest, protocolOf: string -> Option<string>,
    draws: seq<seq<Byte>>, now: int)
    requires DrawsFit(draws)
    requires !Truthy(req.customAlias)
    requires CheckLongUrl(req.longUrl, protocolOf).Success?
    ensures var k := Collisions(rows, EncodeEach(draws), 0);
      var r := Issue(rows, req, protocolOf, draws, now);
      && (k == MaxAttempts ==> r.outcome == Failure(GenerationExhausted))
      && (k < MaxAttempts ==>
            var link := Link(Candidate(draws, k), req.longUrl.s, None, ExpiryFor(req.expiryDays, now), false);
            r.outcome ==
              if !ExpiryRepresentable(link.expiresAt) then Failure(InvalidTimeValue)
              else if Admits(rows, link) then Success(Candidate(draws, k))
              else Failure(CreateFailed))
  {
    assert CheckAlias(rows, req.customAlias) == Success(None);
  }

  /** Under the table's invariants the collision check finds a row exactly when one holds the code. */
  lemma TakenIffHeld(rows: seq<Link>, code: string)
    requires UniqueKeys(rows) && AliasesAreCodes(rows)
    ensures Taken(rows, code) <==> exists l :: l in rows && l.shortId == code
  {
    SingleFindsPresent(rows, ShortIdIs(code));
  }

  /**
    The candidate the collision loop stops at is held by no link and is made
    of 6 or 7 Base62 symbols; every candidate before it is held by a link.
   */
  lemma FirstFreeCandidate(rows: seq<Link>, draws: seq<seq<Byte>>)
    requires DrawsFit(draws)
    requires UniqueKeys(rows) && AliasesAreCodes(rows)
    ensures var k := Collisions(rows, EncodeEach(draws), 0);
      && (forall i :: 0 <= i < k ==> exists l :: l in rows && l.shortId == Candidate(draws, i))
      && (k < MaxAttempts ==>
            var code := Candidate(draws, k);
            && 6 <= |code| <= 7
            && (forall i :: 0 <= i < |code| ==> code[i] in Base62)
            && (forall l :: l in rows ==> l.shortId != code))
  {
    var k := Collisions(rows, EncodeEach(draws), 0);
    forall i | 0 <= i < k
      ensures exists l :: l in rows && l.shortId == Candidate(draws, i)
    {
      TakenIffHeld(rows, Candidate(draws, i));
    }
    if k < MaxAttempts {
      TakenIffHeld(rows, Candidate(draws, k));
      Base62Indexing(0);
    }
  }

  /**
    Without an alias, a successful request returns the first of the five
    candidates that no link holds as its short id; it is 6 or 7 Base62
    symbols long, and the insert is never rejected.
   */
  lemma IssueGeneratedCode(
    rows: seq<Link>, req: ShortenRequest, protocolOf: string -> Option<string>,
    draws: seq<seq<Byte>>, now: int)
    requires DrawsFit(draws)
    requires UniqueKeys(rows) && AliasesAreCodes(rows)
    requires !Truthy(req.customAlias)
    requires CheckLongUrl(req.longUrl, protocolOf).Success?
    ensures var r := Issue(rows, req, protocolOf, draws, now);
      r.outcome != Failure(CreateFailed) &&
      (r.outcome.Success? ==>
        var k := Collisions(rows, EncodeEach(draws), 0);
        && k < MaxAttempts
        && r.outcome.value == Candidate(draws, k)
        && 6 <= |r.outcome.value| <= 7
        && (forall i :: 0 <= i < |r.outcome.value| ==> r.outcome.value[i] in Base62)
        && (forall l :: l in rows ==> l.shortId != r.outcome.value)
        && (forall i :: 0 <= i < k ==> exists l :: l in rows && l.shortId == Candidate(draws, i)))
  {
    IssueWithoutAlias(rows, req, protocolOf, draws, now);
    FirstFreeCandidate(rows, draws);
  }

  /**
    Without an alias, the request fails with 'Failed to generate unique
    short ID' exactly when all five candidates are held by existing links.
   */
  lemma IssueExhausted(
    rows: seq<Link>, req: ShortenRequest, protocolOf: string -> Option<string>,
    draws: seq<seq<Byte>>, now: int)
    requires DrawsFit(draws)
    requires UniqueKeys(rows) && AliasesAreCodes(rows)
    requires !Truthy(req.customAlias)
    requires CheckLongUrl(req.longUrl, protocolOf).Success?
    ensures Issue(rows, req, protocolOf, draws, now).outcome == Failure(GenerationExhausted) <==>
      forall k :: 0 <= k < MaxAttempts ==> exists l :: l in rows && l.shortId == Candidate(draws, k)
  {
    IssueWithoutAlias(rows, req, protocolOf, draws, now);
    var n := Collisions(rows, EncodeEach(draws), 0);
    forall k | 0 <= k < MaxAttempts
      ensures Taken(rows, Candidate(draws, k)) <==> exists l :: l in rows && l.shortId == Candidate(draws, k)
    {
      TakenIffHeld(rows, Candidate(draws, k));
    }
    if n < MaxAttempts {
      assert !Taken(rows, Candidate(draws, n));
    }
  }

  /**
    An alias equal to the generated short id of another link passes the
    alias-taken check, which looks at `custom_alias` only; the insert is
    then rejected by the unique constraint on `short_id`, and the caller
    gets 'Failed to create short link' rather than 'This alias is already taken'.
   */
  lemma AliasShadowingCode(
    rows: seq<Link>, req: ShortenRequest, protocolOf: string -> Option<string>,
    draws: seq<seq<Byte>>, now: int, a: string)
    requires DrawsFit(draws)
    requires UniqueKeys(rows) && AliasesAreCodes(rows)
    requires CheckLongUrl(req.longUrl, protocolOf).Success?
    requires a != "" && req.customAlias == JsString(a) && ValidateCustomAlias(Some(a)) == AliasValid
    requires exists l :: l in rows && l.shortId == a
    requires forall l :: l in rows ==> l.customAlias != Some(a)
    requires ExpiryRepresentable(ExpiryFor(req.expiryDays, now))
    ensures Issue(rows, req, protocolOf, draws, now) == Issuance(Failure(CreateFailed), rows)
  {
    SingleFindsPresent(rows, AliasIs(a));
    assert CheckAlias(rows, req.customAlias) == Success(Some(a));
    assert ChooseShortId(rows, Some(a), draws) == Success(a);
    var url := CheckLongUrl(req.longUrl, protocolOf).value;
    var link := Link(a, url, Some(a), ExpiryFor(req.expiryDays, now), false);
    var holder :| holder in rows && holder.shortId == a;
    assert !Admits(rows, link);
  }
}
