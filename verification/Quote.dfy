/** The quote: the asset tag it reports, the nonce it is bound to, and the banks it covers. */
module Quote {
  import opened Bytes
  import opened Provisioning
  import BankStrip

  /** SHA-1 and base64 (section 4 of RFC 4648), as functions. */
  datatype Crypto = Crypto(sha1: seq<byte> -> seq<byte>, encode: seq<byte> -> string, decode: string -> Option<seq<byte>>)

  /** Decoding undoes encoding, and only the empty string encodes to nothing. */
  ghost predicate Base64Laws(c: Crypto) {
    forall b: seq<byte> :: c.decode(c.encode(b)) == Some(b) && (c.encode(b) == "" <==> b == [])
  }

  datatype Request = Request(nonce: seq<byte>, banks: seq<string>, pcrs: seq<int>)

  /** The rest of the platform: which banks are active, the TPM's signed quote over a nonce, banks and PCRs, and the
      files that are copied into the response; None is a failure. */
  datatype Platform = Platform(active: string -> bool, sign: (seq<byte>, seq<string>, seq<int>) -> Option<seq<byte>>,
                               aik: Option<seq<byte>>, eventLog: Option<string>, tcb: Option<seq<string>>)

  /** Neither the TPM's quote nor reading a file fails. */
  ghost predicate Responds(pf: Platform) {
    pf.aik.Some? && pf.eventLog.Some? && pf.tcb.Some? && forall n, banks, pcrs :: pf.sign(n, banks, pcrs).Some?
  }

  datatype Response = Response(assetTag: string, isTagProvisioned: bool, quote: string, aik: string, eventLog: string,
                               tcbMeasurements: seq<string>, selectedPcrBanks: seq<string>)

  /** A response, together with the nonce and the banks the TPM was given. */
  datatype QuoteResult = QuoteOk(response: Response, nonce: seq<byte>, banks: seq<string>) | QuoteError | QuotePanic

  ghost predicate AllZero(b: seq<byte>) {
    forall i :: 0 <= i < |b| ==> b[i] == 0
  }

  method IsAllZero(b: seq<byte>) returns (z: bool)
    ensures z <==> AllZero(b)
  {
    for i := 0 to |b|
      invariant forall j :: 0 <= j < i ==> b[j] == 0
    {
      if b[i] != 0 { return false; }
    }
    return true;
  }

  /** The reported tag: empty without an index or with an all-zero one, else the index in base64. */
  ghost function AssetTag(c: Crypto, t: TpmState, secret: string): Option<string> {
    if t.index.None? then Some("") else
    match Readable(t, secret, Index)
    case None => None
    case Some(b) => if |b| != TAG_INDEX_SIZE then None else if AllZero(b) then Some("") else Some(c.encode(b))
  }

  /** A failing TPM call is an error; otherwise the tag. */
  method GetAssetTags(c: Crypto, tpm: Tpm, secret: string) returns (r: Option<string>)
    modifies tpm
    ensures tpm.state == old(tpm.state)
    ensures r == None || r == AssetTag(c, tpm.state, secret)
    ensures old(tpm.calls) >= 2 ==> r == AssetTag(c, tpm.state, secret)
  {
    var exists_ := tpm.NvIndexExists();
    if exists_ == None { return None; }
    if !exists_.value { return Some(""); }
    var bytes := tpm.NvRead(secret, Index);
    if bytes == None || |bytes.value| != TAG_INDEX_SIZE { return None; }
    var zero := IsAllZero(bytes.value);
    if zero { return Some(""); }
    return Some(c.encode(bytes.value));
  }

  /** The nonce given to the TPM: the hash of the request's nonce, extended by the decoded tag if any. */
  function GetNonce(c: Crypto, requestNonce: seq<byte>, assetTag: string): Option<seq<byte>> {
    var taNonce := c.sha1(requestNonce);
    if assetTag == "" then Some(taNonce) else
    match c.decode(assetTag)
    case None => None
    case Some(tag) => Some(c.sha1(taNonce + tag))
  }

  const DEFAULT_BANKS: seq<string> := ["SHA384", "SHA256", "SHA1"]

  function RequestedBanks(banks: seq<string>): seq<string> {
    if banks == [] then DEFAULT_BANKS else banks
  }

  /** The response of createTpmQuote, once tag and nonce are known. */
  function Assemble(c: Crypto, pf: Platform, tag: string, nonce: seq<byte>, banks: seq<string>, pcrs: seq<int>): QuoteResult {
    match pf.sign(nonce, banks, pcrs)
    case None => QuoteError
    case Some(signed) =>
      if pf.aik.None? || pf.eventLog.None? || pf.tcb.None? then QuoteError else
      QuoteOk(Response(tag, tag != "", c.encode(signed), c.encode(pf.aik.value), pf.eventLog.value, pf.tcb.value, banks), nonce, banks)
  }

  ghost function QuoteOf(c: Crypto, pf: Platform, t: TpmState, secret: string, req: Request): QuoteResult {
    if req.nonce == [] then QuoteError else
    var asked := RequestedBanks(req.banks);
    match BankStrip.Strip(pf.active, asked, |asked|, 0)
    case Panic => QuotePanic
    case Banks(left) =>
      match AssetTag(c, t, secret)
      case None => QuoteError
      case Some(tag) =>
        match GetNonce(c, req.nonce, tag)
        case None => QuoteError
        case Some(n) => Assemble(c, pf, tag, n, left, req.pcrs)
  }

  /** CreateTpmQuoteResponse: strip the banks in place, read the tag, bind the nonce, have the TPM sign, and fill in
      the response; the TPM and the response get the same banks. */
  method CreateTpmQuoteResponse(c: Crypto, pf: Platform, tpm: Tpm, secret: string, req: Request) returns (r: QuoteResult)
    modifies tpm
    ensures tpm.state == old(tpm.state)
    ensures r == QuoteError || r == QuoteOf(c, pf, tpm.state, secret, req)
    ensures old(tpm.calls) >= 2 ==> r == QuoteOf(c, pf, tpm.state, secret, req)
    ensures r.QuoteOk? ==>
      && r.response.selectedPcrBanks == r.banks
      && pf.sign(r.nonce, r.banks, req.pcrs).Some? && r.response.quote == c.encode(pf.sign(r.nonce, r.banks, req.pcrs).value)
  {
    hide BankStrip.Strip, AssetTag, GetNonce;
    if req.nonce == [] { return QuoteError; }
    var asked := RequestedBanks(req.banks);
    var slice := new string[|asked|](i requires 0 <= i < |asked| => asked[i]);
    assert slice[..] == asked;
    var stripped := BankStrip.StripInactive(pf.active, slice);
    if stripped.Panic? { return QuotePanic; }
    var tag := GetAssetTags(c, tpm, secret);
    if tag == None { return QuoteError; }
    var n := GetNonce(c, req.nonce, tag.value);
    if n == None { return QuoteError; }
    var signed := pf.sign(n.value, stripped.banks, req.pcrs);
    if signed == None { return QuoteError; }
    if pf.aik == None { return QuoteError; }
    if pf.eventLog == None { return QuoteError; }
    if pf.tcb == None { return QuoteError; }
    var response := Response(tag.value, tag.value != "", c.encode(signed.value), c.encode(pf.aik.value), pf.eventLog.value,
                             pf.tcb.value, stripped.banks);
    r := QuoteOk(response, n.value, stripped.banks);
  }

  /** The nonce is SHA1(n) without a tag, else SHA1(SHA1(n) followed by the tag's bytes). */
  lemma {:induction false} NonceBindsTag(c: Crypto, pf: Platform, t: TpmState, secret: string, req: Request)
    requires Base64Laws(c) && QuoteOf(c, pf, t, secret, req).QuoteOk?
    ensures var q := QuoteOf(c, pf, t, secret, req);
            if t.index.None? || AllZero(t.index.value.data.value) then q.response.assetTag == "" && !q.response.isTagProvisioned && q.nonce == c.sha1(req.nonce)
            else
              var tag := t.index.value.data.value;
              |tag| == TAG_INDEX_SIZE && q.response.assetTag == c.encode(tag) && q.response.isTagProvisioned && q.nonce == c.sha1(c.sha1(req.nonce) + tag)
  {
    hide BankStrip.Strip, AllZero;
    if t.index.Some? {
      var tag := t.index.value.data.value;
      assert c.decode(c.encode(tag)) == Some(tag);
    }
  }

  // ----- the tag is carried forward -----

  /** k successful define-tag-index runs in a row, each with its own generated secret. */
  function DefineRuns(t: TpmState, secret: string, owner: string, randoms: seq<string>, ns: seq<nat>): TaskResult
    requires |ns| == |randoms|
  {
    if ns == [] then TaskResult(t, secret, true) else
    var r := DefineRuns(t, secret, owner, randoms[..|ns| - 1], ns[..|ns| - 1]);
    if !r.ok then r else DefineTagIndex(r.tpm, r.secret, owner, randoms[|ns| - 1], ns[|ns| - 1])
  }

  /** What a quote reports about the tag depends only on this. */
  ghost predicate SameTag(a: Option<NvIndex>, b: Option<NvIndex>) {
    Bytes48(a) && Bytes48(b) && Content(a) == Content(b)
  }

  predicate Bytes48(i: Option<NvIndex>) {
    i.None? || (i.value.data.Some? && |i.value.data.value| == TAG_INDEX_SIZE)
  }

  /** The bytes a quote sees: no index is as good as zeros. */
  function Content(i: Option<NvIndex>): seq<byte>
    requires Bytes48(i)
  {
    if i.None? then Zeros(TAG_INDEX_SIZE) else i.value.data.value
  }

  lemma DefineKeepsTag(t: TpmState, secret: string, owner: string, random: string, n: nat)
    requires Bytes48(t.index) && DefineTagIndex(t, secret, owner, random, n).ok
    ensures var r := DefineTagIndex(t, secret, owner, random, n);
            SameTag(t.index, r.tpm.index) && r.tpm.index.Some? && r.tpm.index.value.auth == r.secret
  {
  }

  lemma {:induction false} DefineRunsKeepTag(t: TpmState, secret: string, owner: string, randoms: seq<string>, ns: seq<nat>)
    requires |ns| == |randoms| && Bytes48(t.index) && DefineRuns(t, secret, owner, randoms, ns).ok
    ensures var r := DefineRuns(t, secret, owner, randoms, ns);
            SameTag(t.index, r.tpm.index) && (ns != [] ==> r.tpm.index.Some? && r.tpm.index.value.auth == r.secret)
  {
    hide DefineTagIndex, Content;
    if ns != [] {
      var k := |ns| - 1;
      DefineRunsKeepTag(t, secret, owner, randoms[..k], ns[..k]);
      var r := DefineRuns(t, secret, owner, randoms[..k], ns[..k]);
      DefineKeepsTag(r.tpm, r.secret, owner, randoms[k], ns[k]);
    }
  }

  /** An index that opens with the secret reports its content; so does an absent one. */
  lemma AssetTagOfContent(c: Crypto, t: TpmState, secret: string)
    requires Bytes48(t.index) && (t.index.Some? ==> t.index.value.auth == secret)
    ensures AssetTag(c, t, secret) == Some(if AllZero(Content(t.index)) then "" else c.encode(Content(t.index)))
  {
  }

  lemma QuotedIndex(c: Crypto, t: TpmState, secret: string)
    requires AssetTag(c, t, secret).Some?
    ensures Bytes48(t.index) && (t.index.Some? ==> t.index.value.auth == secret)
  {
  }

  /** Any number of successful define-tag-index runs between two quotes, each quote made with the secret of
      its time, leaves the reported tag, the provisioned flag and the nonce given to the TPM unchanged. */
  lemma {:induction false} TagCarriedForward(c: Crypto, pf: Platform, t: TpmState, secret: string, owner: string,
                          randoms: seq<string>, ns: seq<nat>, taskSecret: string, req: Request)
    requires |ns| == |randoms| && ns != [] && DefineRuns(t, taskSecret, owner, randoms, ns).ok
    requires QuoteOf(c, pf, t, secret, req).QuoteOk?
    ensures var r := DefineRuns(t, taskSecret, owner, randoms, ns);
            QuoteOf(c, pf, r.tpm, r.secret, req) == QuoteOf(c, pf, t, secret, req)
  {
    hide AssetTag, DefineRuns, GetNonce, BankStrip.Strip, Content;
    QuotedIndex(c, t, secret);
    DefineRunsKeepTag(t, taskSecret, owner, randoms, ns);
    var r := DefineRuns(t, taskSecret, owner, randoms, ns);
    AssetTagOfContent(c, t, secret);
    AssetTagOfContent(c, r.tpm, r.secret);
  }

  // ----- banks -----

  /** The banks quoted and reported are exactly the active ones requested, if and only if the in-place
      deletion is harmless for the request. */
  lemma QuotedBanks(c: Crypto, pf: Platform, t: TpmState, secret: string, req: Request)
    requires Responds(pf) && req.nonce != [] && AssetTag(c, t, secret).Some? && GetNonce(c, req.nonce, AssetTag(c, t, secret).value).Some?
    ensures var q := QuoteOf(c, pf, t, secret, req);
            var asked := RequestedBanks(req.banks);
            (q.QuoteOk? && q.banks == BankStrip.Actives(pf.active, asked) && q.response.selectedPcrBanks == q.banks) <==>
            BankStrip.NoInactivePair(pf.active, asked) && BankStrip.LastIsAlone(pf.active, asked)
  {
    hide AssetTag, GetNonce, BankStrip.Strip;
    BankStrip.StripExactly(pf.active, RequestedBanks(req.banks));
  }

  // ----- from setup to quote -----

  /** After a completed setup that defines the index and a service start, a deployed 48-byte tag is what
      the next quote reports and binds. */
  lemma {:induction false} SetupDeployQuote(c: Crypto, pf: Platform, s: System, tasks: seq<Task>, owner: string, random: string,
                         lucks: seq<Luck>, tag: seq<byte>, calls: nat, req: Request)
    requires Base64Laws(c) && Responds(pf) && Consistent(s) && random != "" && DefineTagIndexTask in tasks && calls >= 2
    requires |tag| == TAG_INDEX_SIZE && !AllZero(tag) && req.nonce != []
    requires RunTasks(Running(s, s.saved, true), tasks, owner, random, lucks).ok
    requires BankStrip.Strip(pf.active, RequestedBanks(req.banks), |RequestedBanks(req.banks)|, 0).Banks?
    ensures var s1 := Next(RunSetup(s, tasks, owner, random, lucks, true), StartService);
            var s2 := Next(s1, DeployTag(tag, calls));
            var q := QuoteOf(c, pf, s2.tpm, s2.service, req);
            q.QuoteOk? && q.response.assetTag == c.encode(tag) && q.response.isTagProvisioned && q.nonce == c.sha1(c.sha1(req.nonce) + tag)
  {
    hide RunTasks, AllZero, BankStrip.Strip, RequestedBanks, RunSetup;
    SetupThenDeploy(s, tasks, owner, random, lucks, tag, calls);
    assert c.decode(c.encode(tag)) == Some(tag) && c.encode(tag) != "";
  }

  // ----- every response, literally -----

  /** In every response the TPM signed the nonce and the banks it is reported with; signature, AIK certificate, event log
      and measurements are the platform's, each in its own place; the tag and the nonce are bound as they should be. */
  lemma {:induction false} ResponseContents(c: Crypto, pf: Platform, t: TpmState, secret: string, req: Request)
    requires Base64Laws(c) && QuoteOf(c, pf, t, secret, req).QuoteOk?
    ensures var q := QuoteOf(c, pf, t, secret, req);
            && req.nonce != [] && pf.aik.Some? && pf.eventLog.Some? && pf.tcb.Some?
            && pf.sign(q.nonce, q.banks, req.pcrs).Some?
            && c.decode(q.response.quote) == pf.sign(q.nonce, q.banks, req.pcrs)
            && c.decode(q.response.aik) == pf.aik
            && q.response.eventLog == pf.eventLog.value
            && q.response.tcbMeasurements == pf.tcb.value
            && q.response.selectedPcrBanks == q.banks
            && (q.response.isTagProvisioned <==> q.response.assetTag != "")
  {
    hide BankStrip.Strip, AssetTag, GetNonce;
  }

  /** The reported tag is empty exactly without an index or with one of 48 zero bytes; otherwise it decodes to the index. */
  lemma {:induction false} TagReported(c: Crypto, pf: Platform, t: TpmState, secret: string, req: Request)
    requires Base64Laws(c) && QuoteOf(c, pf, t, secret, req).QuoteOk?
    ensures var tag := QuoteOf(c, pf, t, secret, req).response.assetTag;
            match t.index
            case None => tag == ""
            case Some(index) =>
              && index.auth == secret && index.data.Some? && |index.data.value| == 48
              && (tag == "" <==> forall i :: 0 <= i < 48 ==> index.data.value[i] == 0)
              && (tag != "" ==> c.decode(tag) == index.data)
  {
    hide BankStrip.Strip, GetNonce;
    if t.index.Some? && t.index.value.data.Some? {
      var b := t.index.value.data.value;
      assert c.decode(c.encode(b)) == Some(b) && (c.encode(b) == "" <==> b == []);
    }
  }

  /** The index, if there is one, opens with the secret, has been written, and holds 48 bytes. */
  predicate TagReadable(t: TpmState, secret: string) {
    t.index.None? || (t.index.value.auth == secret && t.index.value.data.Some? && |t.index.value.data.value| == 48)
  }

  /** A request fails exactly for an empty nonce, an index that cannot be read in full, a TPM that does not sign, or a file
      that cannot be read; it panics exactly when the deletion of banks does. */
  lemma {:induction false} QuoteFailsExactly(c: Crypto, pf: Platform, t: TpmState, secret: string, req: Request)
    requires Base64Laws(c)
    ensures var q := QuoteOf(c, pf, t, secret, req);
            var asked := if req.banks == [] then ["SHA384", "SHA256", "SHA1"] else req.banks;
            var stripped := BankStrip.Strip(pf.active, asked, |asked|, 0);
            && (q.QuotePanic? <==> req.nonce != [] && stripped.Panic?)
            && (q.QuoteOk? <==>
                 && req.nonce != [] && stripped.Banks? && TagReadable(t, secret)
                 && (var tag := if t.index.None? || AllZero(t.index.value.data.value) then [] else t.index.value.data.value;
                     var nonce := if tag == [] then c.sha1(req.nonce) else c.sha1(c.sha1(req.nonce) + tag);
                     pf.sign(nonce, stripped.banks, req.pcrs).Some?)
                 && pf.aik.Some? && pf.eventLog.Some? && pf.tcb.Some?)
            && (q.QuoteOk? ==> q.banks == stripped.banks)
  {
    hide BankStrip.Strip, AllZero;
    if TagReadable(t, secret) && t.index.Some? {
      var tag := t.index.value.data.value;
      assert c.decode(c.encode(tag)) == Some(tag) && (c.encode(tag) == "" <==> tag == []);
      assert tag != [];
    }
  }
}
