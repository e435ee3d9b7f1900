/**
 * The otpauth-migration:// import of src/usecase/totpstore/migration.go, working on the
 * records the protobuf decoder yields. Base64 decoding (section 4 of RFC 4648) and protobuf
 * unmarshalling are function parameters.
 */
module Migration {
  import opened Wrappers
  import opened Bytes
  import opened Errors
  import opened TotpEntry
  import Text
  import Url
  import Base32
  import Totp

  /** MigrationPayload.Algorithm; an enum value outside the schema is `AlgorithmUnknown`. */
  datatype Algorithm = AlgorithmUnspecified | AlgSHA1 | AlgSHA256 | AlgSHA512 | AlgMD5 | AlgorithmUnknown(code: int)

  /** MigrationPayload.DigitCount. */
  datatype DigitCount = DigitCountUnspecified | Six | Eight | DigitCountUnknown(code: int)

  /** MigrationPayload.OtpType. */
  datatype OtpType = OtpTypeUnspecified | Hotp | Totp | OtpTypeUnknown(code: int)

  /** One MigrationPayload.OtpParameters record. */
  datatype OtpParameters = OtpParameters(
    secret: seq<byte>,
    name: string,
    issuer: string,
    algorithm: Algorithm,
    digits: DigitCount,
    otpType: OtpType)

  const MIGRATION_PERIOD: int64 := 30

  /** migrationAlgorithm: SHA256 and SHA512 keep their names, everything else becomes SHA1. */
  function MigrationAlgorithm(a: Algorithm): (name: string)
    ensures name == "SHA256" <==> a == AlgSHA256
    ensures name == "SHA512" <==> a == AlgSHA512
    ensures name in {"SHA1", "SHA256", "SHA512"}
  {
    match a
    case AlgSHA256 => "SHA256"
    case AlgSHA512 => "SHA512"
    case _ => "SHA1"
  }

  /** migrationDigits: EIGHT is 8 digits, everything else 6. */
  function MigrationDigits(d: DigitCount): (n: int64)
    ensures n == 8 <==> d == Eight
    ensures n == 6 <==> d != Eight
  {
    if d == Eight then 8 else 6
  }

  /**
   * parseMigrationName: a name `ISSUER:ACCOUNT` is split at its first ':' and both parts are
   * trimmed, and a non-empty issuer field wins over the issuer from the name. A name without
   * ':' is the account as it is.
   */
  function MigrationName(name: string, issuer: string): (r: (string, string))
    ensures ':' !in name ==> r == (issuer, name)
    ensures ':' in name ==>
      var parts := Text.SplitFirst(name, ':');
      && r.0 == (if issuer == "" then Text.TrimSpace(parts.0) else issuer)
      && r.1 == Text.TrimSpace(parts.1)
  {
    if ':' in name then
      var (nameIssuer, account) := Text.SplitFirst(name, ':');
      (if issuer == "" then Text.TrimSpace(nameIssuer) else issuer, Text.TrimSpace(account))
    else (issuer, name)
  }

  /** The TOTP records, in input order: the records the conversion loop does not skip. */
  function TotpRecords(ps: seq<OtpParameters>): (ts: seq<OtpParameters>)
    ensures |ts| <= |ps|
    ensures forall i :: 0 <= i < |ts| ==> ts[i].otpType == Totp
  {
    if |ps| == 0 then []
    else if ps[|ps| - 1].otpType == Totp then TotpRecords(ps[..|ps| - 1]) + [ps[|ps| - 1]]
    else TotpRecords(ps[..|ps| - 1])
  }

  /** The entry built from one TOTP record. */
  function MigratedEntry(p: OtpParameters, id: string, now: int): (e: Entry)
    ensures e.secret == Base32.EncodeNoPad(p.secret) && Base32.PAD !in e.secret
    ensures (e.issuer, e.account) == MigrationName(p.name, p.issuer)
    ensures e.algorithm == MigrationAlgorithm(p.algorithm) && e.digits == MigrationDigits(p.digits)
    ensures e.period == MIGRATION_PERIOD && e.order == 0 && e.id == id && e.createdAt == now
  {
    var secret := Base32.EncodeNoPad(p.secret);
    Totp.SymbolsArePlain(secret);
    Text.ToUpperFixes(secret);
    var (issuer, account) := MigrationName(p.name, p.issuer);
    Entry(id, issuer, account, Text.ToUpper(secret), MigrationAlgorithm(p.algorithm),
          MigrationDigits(p.digits), MIGRATION_PERIOD, 0, now)
  }

  /**
   * ParseOTPAuthMigrationURI on the result of url.Parse. The k-th entry created gets the ID
   * `newId(k)` and the creation time `now(k)`: the clock is read once per entry. Errors in the
   * source's order: the URI, the data parameter, its decoding, and finally an import without
   * any TOTP record.
   */
  function ParseOTPAuthMigrationURI(
    parsed: Option<Url.Uri>,
    base64: string -> Option<seq<byte>>,
    unmarshal: seq<byte> -> Option<seq<OtpParameters>>,
    newId: nat -> string,
    now: nat -> int)
    : (r: Result<seq<Entry>, Error>)
    ensures parsed.None? || parsed.value.scheme != "otpauth-migration" ==> r == Failure(InvalidMigrationURI)
    ensures parsed.Some? && parsed.value.scheme == "otpauth-migration" ==>
      var data := Url.Get(parsed.value.query, "data");
      && (data == "" ==> r == Failure(MissingMigrationData))
      && (data != "" && base64(data).None? ==> r == Failure(InvalidMigrationData))
      && (data != "" && base64(data).Some? && unmarshal(base64(data).value).None? ==> r == Failure(InvalidMigrationData))
      && (data != "" && base64(data).Some? && unmarshal(base64(data).value).Some? ==>
            var ts := TotpRecords(unmarshal(base64(data).value).value);
            && (|ts| == 0 ==> r == Failure(NoTOTPEntries))
            && (|ts| > 0 ==>
                  && r.Success? && |r.value| == |ts|
                  && forall i :: 0 <= i < |ts| ==> r.value[i] == MigratedEntry(ts[i], newId(i), now(i))))
    ensures r.Success? ==> |r.value| > 0
  {
    if parsed.None? || parsed.value.scheme != "otpauth-migration" then Failure(InvalidMigrationURI)
    else
      var data := Url.Get(parsed.value.query, "data");
      if data == "" then Failure(MissingMigrationData)
      else match base64(data)
        case None => Failure(InvalidMigrationData)
        case Some(decoded) =>
          match unmarshal(decoded)
          case None => Failure(InvalidMigrationData)
          case Some(records) =>
            var ts := TotpRecords(records);
            if |ts| == 0 then Failure(NoTOTPEntries)
            else Success(seq(|ts|, i requires 0 <= i < |ts| => MigratedEntry(ts[i], newId(i), now(i))))
  }

  // ---------------------------------------------------------------------------
  // Properties.

  /** A record survives the filter exactly when it is in the input and is TOTP. */
  lemma {:induction false} TotpRecordsMembers(ps: seq<OtpParameters>, p: OtpParameters)
    ensures p in TotpRecords(ps) <==> p in ps && p.otpType == Totp
  {
    if |ps| > 0 {
      var init := ps[..|ps| - 1];
      TotpRecordsMembers(init, p);
      assert ps == init + [ps[|ps| - 1]];
    }
  }

  /** The filter distributes over concatenation, so it keeps the input order. */
  lemma {:induction false} TotpRecordsAppend(a: seq<OtpParameters>, b: seq<OtpParameters>)
    ensures TotpRecords(a + b) == TotpRecords(a) + TotpRecords(b)
    decreases |b|
  {
    if |b| == 0 {
      assert a + b == a;
    } else {
      var init := b[..|b| - 1];
      assert (a + b)[..|a + b| - 1] == a + init;
      TotpRecordsAppend(a, init);
    }
  }

  /** A record list without TOTP records imports as an error, never as an empty success. */
  lemma NoTotpMeansError(ps: seq<OtpParameters>)
    requires forall i :: 0 <= i < |ps| ==> ps[i].otpType != Totp
    ensures TotpRecords(ps) == []
  {
    if |TotpRecords(ps)| > 0 {
      var p := TotpRecords(ps)[0];
      TotpRecordsMembers(ps, p);
      assert false;
    }
  }

  /** The imported secret is a valid TOTP secret that decodes to the raw secret bytes. */
  lemma MigratedSecretDecodes(p: OtpParameters, id: string, now: int)
    ensures Base32.DecodeString(Totp.NormalizeSecret(MigratedEntry(p, id, now).secret)) == Some(p.secret)
  {
    Totp.NormalizedEncodingDecodes(p.secret);
  }

  /**
   * A name `ISSUER:ACCOUNT` whose halves carry no surrounding spaces splits back into its
   * halves, and the issuer field, when set, replaces the issuer of the name.
   */
  lemma MigrationNameSplits(nameIssuer: string, account: string, issuer: string)
    requires ':' !in nameIssuer && Text.NoSpace(nameIssuer) && Text.NoSpace(account)
    ensures MigrationName(nameIssuer + ":" + account, issuer)
         == (if issuer == "" then nameIssuer else issuer, account)
  {
    var name := nameIssuer + ":" + account;
    assert name == nameIssuer + [':'] + account;
    assert ':' in name by {
      assert name[|nameIssuer|] == ':';
    }
    Text.SplitFirstUnique(nameIssuer, account, ':');
    var parts := Text.SplitFirst(name, ':');
    assert parts == (nameIssuer, account);
    Text.TrimSpaceNoSpace(nameIssuer);
    Text.TrimSpaceNoSpace(account);
  }
}
