/** TOTP entries and the otpauth:// URI codec of src/usecase/totpstore/entry.go. */
module TotpEntry {
  import opened Wrappers
  import opened Bytes
  import opened Errors
  import Text
  import Decimal
  import Url
  import Totp

  /** One stored credential. The creation time is a Unix time; the ID is an opaque string. */
  datatype Entry = Entry(
    id: string,
    issuer: string,
    account: string,
    secret: string,
    algorithm: string,
    digits: int64,
    period: int64,
    order: int64,
    createdAt: int)

  const DEFAULT_ALGORITHM: string := "SHA1"
  const DEFAULT_DIGITS: int64 := 6
  const DEFAULT_PERIOD: int64 := 30

  /** NewEntry, with the fresh ID and the current time as parameters. */
  function NewEntry(id: string, issuer: string, account: string, secret: string, now: int): (e: Entry)
    ensures e.id == id && e.issuer == issuer && e.account == account && e.secret == secret
    ensures e.algorithm == DEFAULT_ALGORITHM && e.digits == DEFAULT_DIGITS && e.period == DEFAULT_PERIOD
    ensures e.order == 0 && e.createdAt == now
  {
    Entry(id, issuer, account, secret, DEFAULT_ALGORITHM, DEFAULT_DIGITS, DEFAULT_PERIOD, 0, now)
  }

  /** strings.TrimPrefix(path, "/"). */
  function TrimSlash(path: string): (r: string)
    ensures |path| > 0 && path[0] == '/' ==> path == "/" + r
    ensures !(|path| > 0 && path[0] == '/') ==> r == path
  {
    if |path| > 0 && path[0] == '/' then path[1..] else path
  }

  /**
   * The label `ISSUER:ACCOUNT` or `ACCOUNT`, split at its first ':'. The issuer is then free of
   * ':' and the two parts rebuild the label.
   */
  function SplitLabel(text: string): (r: (string, string))
    ensures ':' in text ==> text == r.0 + ":" + r.1 && ':' !in r.0
    ensures ':' !in text ==> r == ("", text)
  {
    if ':' in text then Text.SplitFirst(text, ':') else ("", text)
  }

  /** An integer query parameter: Atoi's value when it parses, the default otherwise. */
  function IntParam(query: map<string, seq<string>>, key: string, fallback: int64): (v: int64)
    ensures var s := Url.Get(query, key);
      v == if s != "" && Decimal.Atoi(s).Some? then Decimal.Atoi(s).value else fallback
  {
    var s := Url.Get(query, key);
    if s == "" then fallback
    else match Decimal.Atoi(s)
      case Some(n) => n
      case None => fallback
  }

  /**
   * ParseOTPAuthURI on the result of url.Parse, with the fresh ID and the current time as
   * parameters. Errors come in the source's order: the parse error, the scheme, the host,
   * then the secret.
   */
  function ParseOTPAuthURI(parsed: Option<Url.Uri>, id: string, now: int): (r: Result<Entry, Error>)
    ensures parsed.None? ==> r == Failure(UrlParseFailed)
    ensures parsed.Some? && parsed.value.scheme != "otpauth" ==> r == Failure(InvalidURIScheme)
    ensures parsed.Some? && parsed.value.scheme == "otpauth" && parsed.value.host != "totp" ==>
      r == Failure(NotTOTP)
    ensures parsed.Some? && parsed.value.scheme == "otpauth" && parsed.value.host == "totp" ==>
      (r.Failure? <==> Url.Get(parsed.value.query, "secret") == "")
    ensures r.Failure? && parsed.Some? && parsed.value.scheme == "otpauth" && parsed.value.host == "totp" ==>
      r.error == MissingSecret
    ensures r.Success? ==>
      var u := parsed.value;
      var parts := SplitLabel(TrimSlash(u.path));
      && r.value.issuer == (if parts.0 != "" then parts.0 else Url.Get(u.query, "issuer"))
      && r.value.account == parts.1
      && r.value.secret == Text.ToUpper(Url.Get(u.query, "secret"))
      && r.value.algorithm == Text.ToUpper(
           if Url.Get(u.query, "algorithm") == "" then DEFAULT_ALGORITHM else Url.Get(u.query, "algorithm"))
      && r.value.digits == IntParam(u.query, "digits", DEFAULT_DIGITS)
      && r.value.period == IntParam(u.query, "period", DEFAULT_PERIOD)
      && Text.NoLower(r.value.secret) && Text.NoLower(r.value.algorithm)
      && r.value.id == id && r.value.order == 0 && r.value.createdAt == now
  {
    match parsed
    case None => Failure(UrlParseFailed)
    case Some(u) =>
      if u.scheme != "otpauth" then Failure(InvalidURIScheme)
      else if u.host != "totp" then Failure(NotTOTP)
      else
        var (labelIssuer, account) := SplitLabel(TrimSlash(u.path));
        var secret := Url.Get(u.query, "secret");
        if secret == "" then Failure(MissingSecret)
        else
          var issuer := if labelIssuer == "" then Url.Get(u.query, "issuer") else labelIssuer;
          var algorithm := if Url.Get(u.query, "algorithm") == "" then DEFAULT_ALGORITHM else Url.Get(u.query, "algorithm");
          Text.ToUpperFixes(secret);
          Text.ToUpperFixes(algorithm);
          Success(Entry(id, issuer, account, Text.ToUpper(secret), Text.ToUpper(algorithm),
                        IntParam(u.query, "digits", DEFAULT_DIGITS),
                        IntParam(u.query, "period", DEFAULT_PERIOD), 0, now))
  }

  /** The label of an entry as url.Parse gives it back: "ISSUER:ACCOUNT", or "ACCOUNT" alone. */
  function Label(e: Entry): string {
    if e.issuer != "" then e.issuer + ":" + e.account else e.account
  }

  /**
   * ToOTPAuthURI, as the parts url.Parse recovers from the string it builds (path escaping and
   * query encoding are inverted by parsing). `secret` is always present; the other parameters
   * only when they differ from their defaults.
   */
  function ToOTPAuthURI(e: Entry): (u: Url.Uri)
    ensures u.scheme == "otpauth" && u.host == "totp" && u.path == "/" + Label(e)
    ensures "secret" in u.query && u.query["secret"] == [e.secret]
  {
    var q := map["secret" := [e.secret]];
    var q := if e.issuer != "" then q["issuer" := [e.issuer]] else q;
    var q := if e.algorithm != DEFAULT_ALGORITHM then q["algorithm" := [e.algorithm]] else q;
    var q := if e.digits != DEFAULT_DIGITS then q["digits" := [Decimal.Itoa(e.digits)]] else q;
    var q := if e.period != DEFAULT_PERIOD then q["period" := [Decimal.Itoa(e.period)]] else q;
    Url.Uri("otpauth", "totp", "/" + Label(e), q)
  }

  /**
   * The query of an entry's URI holds the secret and, each with one value, exactly those
   * optional parameters that differ from their defaults.
   */
  lemma OptionalParams(e: Entry)
    ensures var q := ToOTPAuthURI(e).query;
      && ("issuer" in q <==> e.issuer != "")
      && ("algorithm" in q <==> e.algorithm != DEFAULT_ALGORITHM)
      && ("digits" in q <==> e.digits != DEFAULT_DIGITS)
      && ("period" in q <==> e.period != DEFAULT_PERIOD)
  {
  }

  /** Every key of an entry's URI query is one of the five, with exactly one value. */
  lemma QueryShape(e: Entry)
    ensures var q := ToOTPAuthURI(e).query;
      && (forall k :: k in q ==> |q[k]| == 1)
      && q.Keys <= {"secret", "issuer", "algorithm", "digits", "period"}
  {
  }

  /** DisplayName: the account, or the issuer when there is no account. */
  function DisplayName(e: Entry): (name: string)
    ensures e.account != "" ==> name == e.account
    ensures e.account == "" ==> name == e.issuer
  {
    if e.account != "" then e.account else e.issuer
  }

  /** Entry.TOTP: any generation error is reported as ErrInvalidSecret. */
  function EntryCode(e: Entry, unix: int64, hmac: Totp.Mac): (r: Result<string, Error>)
    requires Totp.ValidMac(hmac) && e.period != 0 && Totp.Modulus(e.digits) != 0
    ensures r.Failure? <==> Totp.Generate(e.secret, unix, e.digits, e.period, e.algorithm, hmac).Failure?
    ensures r.Failure? ==> r.error == InvalidSecret
    ensures r.Success? ==> r.value == Totp.Generate(e.secret, unix, e.digits, e.period, e.algorithm, hmac).value
  {
    match Totp.Generate(e.secret, unix, e.digits, e.period, e.algorithm, hmac)
    case Failure(_) => Failure(InvalidSecret)
    case Success(code) => Success(code)
  }

  // ---------------------------------------------------------------------------
  // Properties.

  /** The conditions under which an entry survives being written as a URI and read back. */
  predicate RoundTrips(e: Entry) {
    && e.secret != "" && Text.NoLower(e.secret)
    && e.algorithm != "" && Text.NoLower(e.algorithm)
    && ':' !in e.issuer
    && (e.issuer == "" ==> ':' !in e.account)
  }

  /**
   * Parsing the URI of an entry gives back every field but the fresh ID, the order and the
   * creation time.
   */
  lemma ParseToOTPAuthURI(e: Entry, id: string, now: int)
    requires RoundTrips(e)
    ensures ParseOTPAuthURI(Some(ToOTPAuthURI(e)), id, now) == Success(e.(id := id, order := 0, createdAt := now))
  {
    var u := ToOTPAuthURI(e);
    LabelRoundTrip(e);
    QueryRoundTrip(e);
    Text.ToUpperFixes(e.secret);
    Text.ToUpperFixes(e.algorithm);
    var r := ParseOTPAuthURI(Some(u), id, now);
    assert r.Success?;
    assert r.value.issuer == e.issuer && r.value.account == e.account;
    assert r.value.secret == e.secret && r.value.algorithm == e.algorithm;
    assert r.value.digits == e.digits && r.value.period == e.period;
  }

  /** The label of the URI path splits back into the entry's issuer and account. */
  lemma LabelRoundTrip(e: Entry)
    requires RoundTrips(e)
    ensures SplitLabel(TrimSlash(ToOTPAuthURI(e).path)) == (e.issuer, e.account)
  {
    assert TrimSlash(ToOTPAuthURI(e).path) == Label(e);
    if e.issuer != "" {
      Text.SplitFirstUnique(e.issuer, e.account, ':');
      assert Label(e) == e.issuer + [':'] + e.account;
      assert ':' in Label(e) by {
        assert Label(e)[|e.issuer|] == ':';
      }
    }
  }

  /** Every query parameter of the URI reads back as the field it was written from. */
  lemma QueryRoundTrip(e: Entry)
    requires RoundTrips(e)
    ensures var q := ToOTPAuthURI(e).query;
      && Url.Get(q, "secret") == e.secret
      && (e.issuer != "" ==> Url.Get(q, "issuer") == e.issuer)
      && (if Url.Get(q, "algorithm") == "" then DEFAULT_ALGORITHM else Url.Get(q, "algorithm")) == e.algorithm
      && IntParam(q, "digits", DEFAULT_DIGITS) == e.digits
      && IntParam(q, "period", DEFAULT_PERIOD) == e.period
  {
    TextParamRoundTrip(e);
    IntParamRoundTrip(e);
  }

  /** The secret, issuer and algorithm parameters read back as written. */
  lemma TextParamRoundTrip(e: Entry)
    ensures var q := ToOTPAuthURI(e).query;
      && Url.Get(q, "secret") == e.secret
      && (e.issuer != "" ==> Url.Get(q, "issuer") == e.issuer)
      && (e.algorithm != DEFAULT_ALGORITHM ==> Url.Get(q, "algorithm") == e.algorithm)
      && (e.algorithm == DEFAULT_ALGORITHM ==> Url.Get(q, "algorithm") == "")
  {
  }

  /** The digits and period parameters read back as the numbers they were written from. */
  lemma IntParamRoundTrip(e: Entry)
    ensures var q := ToOTPAuthURI(e).query;
      && IntParam(q, "digits", DEFAULT_DIGITS) == e.digits
      && IntParam(q, "period", DEFAULT_PERIOD) == e.period
  {
    var q := ToOTPAuthURI(e).query;
    if e.digits != DEFAULT_DIGITS {
      Decimal.AtoiItoa(e.digits);
      assert Url.Get(q, "digits") == Decimal.Itoa(e.digits);
    }
    if e.period != DEFAULT_PERIOD {
      Decimal.AtoiItoa(e.period);
      assert Url.Get(q, "period") == Decimal.Itoa(e.period);
    }
  }

  /** The display name is empty only when both the account and the issuer are. */
  lemma DisplayNameEmpty(e: Entry)
    ensures DisplayName(e) == "" <==> e.account == "" && e.issuer == ""
  {
  }
}
