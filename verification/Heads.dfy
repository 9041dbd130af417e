/** Accepting tree heads: what the client checks, and what a whole run of accepted heads implies. */
module Heads {
  import opened Wrappers
  import opened Bits
  import opened Hashes
  import opened Merkle
  import opened ConsistencyProof

  datatype Error = RequiredFieldMissing | BadData | VerificationFailed

  type VerifyResult<T> = Result<T, Error>

  // ---------------------------------------------------------------------------------------------
  // Messages.  Hash-sized fields are Option<Hash>: None stands for bytes of any other length.

  type PublicKey = nat

  datatype Signature = Signature(auditorKey: PublicKey, bytes: seq<byte>)

  datatype TreeHead = TreeHead(treeSize: u64, timestamp: int, signatures: seq<Signature>)

  datatype AuditorTreeHead = AuditorTreeHead(treeSize: u64, timestamp: int, signature: seq<byte>)

  datatype FullAuditorTreeHead = FullAuditorTreeHead(
    treeHead: Option<AuditorTreeHead>,
    rootValue: Option<Option<Hash>>,
    consistency: seq<Option<Hash>>,
    publicKey: PublicKey)

  datatype FullTreeHead = FullTreeHead(
    treeHead: Option<TreeHead>,
    last: seq<Option<Hash>>,
    distinguished: seq<Option<Hash>>,
    auditorHeads: seq<FullAuditorTreeHead>)

  datatype LastTreeHead = LastTreeHead(head: TreeHead, root: Hash)

  datatype DeploymentMode =
    | ContactMonitoring
    | ThirdPartyManagement(keys: seq<PublicKey>)
    | ThirdPartyAuditing(keys: seq<PublicKey>)

  datatype PublicConfig = PublicConfig(mode: DeploymentMode, signatureKey: PublicKey)

  datatype SigningContext = HeadContext | AuditorContext

  /** The header covered by a signature. */
  datatype SignedHeader = SignedHeader(
    mode: nat, logKey: PublicKey, auditorKey: Option<PublicKey>, treeSize: u64, timestamp: int, root: Hash)

  /** ML-DSA verification is a parameter: key, message, signature bytes, context. */
  type SignatureCheck = (PublicKey, SignedHeader, seq<byte>, SigningContext) -> bool

  const MILLIS_PER_DAY: int := 24 * 60 * 60 * 1000
  const ENTRIES_MAX_BEHIND: nat := 10_000_000

  function ModeByte(mode: DeploymentMode): nat {
    match mode
    case ContactMonitoring => 1
    case ThirdPartyManagement(_) => 2
    case ThirdPartyAuditing(_) => 3
  }

  function AssociatedKeys(mode: DeploymentMode): seq<PublicKey> {
    match mode
    case ContactMonitoring => []
    case ThirdPartyManagement(keys) => keys
    case ThirdPartyAuditing(keys) => keys
  }

  predicate TimestampOk(timestamp: int, maxBehind: int, maxAhead: int, now: int) {
    now - timestamp <= maxBehind && timestamp - now <= maxAhead
  }

  // ---------------------------------------------------------------------------------------------
  // The checks.

  /** What `check_consistency_metadata` and the verification it defers demand of a new head. */
  predicate ConsistentWith(current: TreeHead, root: Hash, proof: seq<Hash>, baseline: Option<LastTreeHead>) {
    match baseline
    case None => proof == []
    case Some(last) =>
      if last.head.treeSize == current.treeSize then
        root == last.root && current.timestamp == last.head.timestamp && proof == []
      else
        && last.head.treeSize < current.treeSize && last.head.timestamp <= current.timestamp
        && VerifyConsistency(last.head.treeSize, current.treeSize, proof, last.root, root).Ok?
  }

  method CheckConsistency(current: TreeHead, root: Hash, proof: seq<Option<Hash>>, baseline: Option<LastTreeHead>)
    returns (r: VerifyResult<()>)
    requires current.treeSize <= MAX_TREE_SIZE
    ensures r.Ok? <==> AllHashes(proof) && ConsistentWith(current, root, HashesOf(proof), baseline)
  {
    hide VerifyConsistency;
    if exists i | 0 <= i < |proof| :: proof[i] == None {
      return Err(BadData);
    }
    var hashes := HashesOf(proof);
    if baseline == None {
      if hashes != [] {
        return Err(BadData);
      }
      return Ok(());
    }
    var last := baseline.value;
    if last.head.treeSize == current.treeSize {
      if root != last.root {
        return Err(BadData);
      }
      if current.timestamp != last.head.timestamp {
        return Err(BadData);
      }
      if hashes != [] {
        return Err(BadData);
      }
      return Ok(());
    }
    if current.treeSize < last.head.treeSize {
      return Err(BadData);
    }
    if current.timestamp < last.head.timestamp {
      return Err(BadData);
    }
    var checked := VerifyConsistencyProof(last.head.treeSize, current.treeSize, hashes, last.root, root);
    return if checked.Ok? then Ok(()) else Err(VerificationFailed);
  }

  /** The first signature made for a key. */
  predicate SignatureFor(key: PublicKey, sigs: seq<Signature>, i: nat) {
    i < |sigs| && sigs[i].auditorKey == key && forall j | 0 <= j < i :: sigs[j].auditorKey != key
  }

  function ServerHeader(config: PublicConfig, key: PublicKey, head: TreeHead, root: Hash): SignedHeader {
    SignedHeader(ModeByte(config.mode), config.signatureKey, Some(key), head.treeSize, head.timestamp, root)
  }

  ghost predicate KeySigned(config: PublicConfig, key: PublicKey, head: TreeHead, root: Hash, check: SignatureCheck) {
    exists i: nat | SignatureFor(key, head.signatures, i) ::
      check(config.signatureKey, ServerHeader(config, key, head, root), head.signatures[i].bytes, HeadContext)
  }

  /** Every configured key has a signature, and its first one is valid for this head. */
  ghost predicate SignaturesOk(config: PublicConfig, head: TreeHead, root: Hash, check: SignatureCheck) {
    forall k | 0 <= k < |AssociatedKeys(config.mode)| ::
      KeySigned(config, AssociatedKeys(config.mode)[k], head, root, check)
  }

  /** The root an auditor vouches for: its own while it lags behind, else the server's. */
  function AuditorRoot(auditor: FullAuditorTreeHead, head: TreeHead, root: Hash): Option<Hash> {
    if auditor.treeHead == None then None
    else if auditor.treeHead.value.treeSize < head.treeSize then
      (if auditor.rootValue == None then None else auditor.rootValue.value)
    else Some(root)
  }

  /** What is demanded of one auditor's head. */
  predicate AuditorOk(config: PublicConfig, key: PublicKey, auditor: FullAuditorTreeHead, head: TreeHead, root: Hash,
                      now: int, check: SignatureCheck)
  {
    && auditor.treeHead.Some?
    && var a := auditor.treeHead.value;
    && TimestampOk(a.timestamp, 7 * MILLIS_PER_DAY, MILLIS_PER_DAY, now)
    && a.treeSize <= head.treeSize && head.treeSize - a.treeSize <= ENTRIES_MAX_BEHIND
    && AuditorRoot(auditor, head, root).Some?
    && (if a.treeSize < head.treeSize then
          && AllHashes(auditor.consistency)
          && VerifyConsistency(a.treeSize, head.treeSize, HashesOf(auditor.consistency),
                               AuditorRoot(auditor, head, root).value, root).Ok?
        else auditor.consistency == [] && auditor.rootValue == None)
    && check(key,
             SignedHeader(ModeByte(config.mode), config.signatureKey, Some(key), a.treeSize, a.timestamp,
                          AuditorRoot(auditor, head, root).value),
             a.signature, AuditorContext)
  }

  predicate AuditorFor(key: PublicKey, heads: seq<FullAuditorTreeHead>, i: nat) {
    i < |heads| && heads[i].publicKey == key && forall j | 0 <= j < i :: heads[j].publicKey != key
  }

  ghost predicate KeyAudited(config: PublicConfig, key: PublicKey, fth: FullTreeHead, head: TreeHead, root: Hash,
                             now: int, check: SignatureCheck)
  {
    exists i: nat | AuditorFor(key, fth.auditorHeads, i) ::
      AuditorOk(config, key, fth.auditorHeads[i], head, root, now, check)
  }

  ghost predicate AuditorsOk(config: PublicConfig, fth: FullTreeHead, head: TreeHead, root: Hash, now: int, check: SignatureCheck) {
    config.mode.ThirdPartyAuditing? ==>
      forall k | 0 <= k < |config.mode.keys| :: KeyAudited(config, config.mode.keys[k], fth, head, root, now, check)
  }

  /** Everything demanded of a full tree head with the computed root. */
  ghost predicate HeadAccepted(config: PublicConfig, fth: FullTreeHead, root: Hash, last: Option<LastTreeHead>,
                               distinguished: Option<LastTreeHead>, now: int, check: SignatureCheck)
  {
    && fth.treeHead.Some?
    && AllHashes(fth.last) && ConsistentWith(fth.treeHead.value, root, HashesOf(fth.last), last)
    && AllHashes(fth.distinguished)
    && ConsistentWith(fth.treeHead.value, root, HashesOf(fth.distinguished), distinguished)
    && SignaturesOk(config, fth.treeHead.value, root, check)
    && TimestampOk(fth.treeHead.value.timestamp, MILLIS_PER_DAY, MILLIS_PER_DAY, now)
    && AuditorsOk(config, fth, fth.treeHead.value, root, now, check)
  }

  // ---------------------------------------------------------------------------------------------
  // The verifier.

  /** i is the first position of ys matching x. */
  ghost predicate FirstMatch<A, B>(x: A, ys: seq<B>, eq: (A, B) -> bool, i: nat) {
    i < |ys| && eq(x, ys[i]) && forall j | 0 <= j < i :: !eq(x, ys[j])
  }

  ghost predicate NoMatch<A, B>(x: A, ys: seq<B>, eq: (A, B) -> bool) {
    forall j | 0 <= j < |ys| :: !eq(x, ys[j])
  }

  /** Pair every element of xs with the first matching element of ys, or fail. */
  method FindMatching<A, B>(xs: seq<A>, ys: seq<B>, eq: (A, B) -> bool) returns (r: Option<seq<nat>>)
    ensures r == None ==> exists k | 0 <= k < |xs| :: NoMatch(xs[k], ys, eq)
    ensures r.Some? ==> |r.value| == |xs| && forall k | 0 <= k < |xs| :: FirstMatch(xs[k], ys, eq, r.value[k])
  {
    var result: seq<nat> := [];
    var k := 0;
    while k < |xs|
      invariant k <= |xs| && |result| == k
      invariant forall m | 0 <= m < k :: FirstMatch(xs[m], ys, eq, result[m])
    {
      var i := 0;
      while i < |ys| && !eq(xs[k], ys[i])
        invariant 0 <= i <= |ys| && forall j | 0 <= j < i :: !eq(xs[k], ys[j])
      {
        i := i + 1;
      }
      if i == |ys| {
        assert NoMatch(xs[k], ys, eq);
        return None;
      }
      result := result + [i];
      k := k + 1;
    }
    return Some(result);
  }

  method VerifySignatures(config: PublicConfig, head: TreeHead, root: Hash, check: SignatureCheck)
    returns (r: VerifyResult<()>)
    ensures r.Ok? <==> SignaturesOk(config, head, root, check)
  {
    hide ServerHeader;
    var keys := AssociatedKeys(config.mode);
    var eq := (key: PublicKey, sig: Signature) => sig.auditorKey == key;
    var found := FindMatching(keys, head.signatures, eq);
    if found == None {
      ghost var k :| 0 <= k < |keys| && NoMatch(keys[k], head.signatures, eq);
      assert !KeySigned(config, keys[k], head, root, check);
      return Err(BadData);
    }
    var k := 0;
    while k < |keys|
      invariant 0 <= k <= |keys|
      invariant forall m | 0 <= m < k :: KeySigned(config, keys[m], head, root, check)
    {
      var i := found.value[k];
      assert FirstMatch(keys[k], head.signatures, eq, i);
      assert SignatureFor(keys[k], head.signatures, i);
      if !check(config.signatureKey, ServerHeader(config, keys[k], head, root), head.signatures[i].bytes, HeadContext) {
        assert !KeySigned(config, keys[k], head, root, check) by {
          assert forall j: nat | SignatureFor(keys[k], head.signatures, j) :: j == i;
        }
        return Err(VerificationFailed);
      }
      k := k + 1;
    }
    return Ok(());
  }

  method VerifyAuditor(config: PublicConfig, key: PublicKey, auditor: FullAuditorTreeHead, head: TreeHead, root: Hash,
                       now: int, check: SignatureCheck) returns (r: VerifyResult<()>)
    requires head.treeSize <= MAX_TREE_SIZE
    ensures r.Ok? <==> AuditorOk(config, key, auditor, head, root, now, check)
  {
    hide VerifyConsistency;
    if auditor.treeHead == None {
      return Err(RequiredFieldMissing);
    }
    var a := auditor.treeHead.value;
    if !TimestampOk(a.timestamp, 7 * MILLIS_PER_DAY, MILLIS_PER_DAY, now) {
      return Err(BadData);
    }
    if a.treeSize > head.treeSize {
      return Err(BadData);
    }
    if head.treeSize - a.treeSize > ENTRIES_MAX_BEHIND {
      return Err(BadData);
    }
    var vouched := root;
    if head.treeSize > a.treeSize {
      if auditor.rootValue == None {
        return Err(RequiredFieldMissing);
      }
      if auditor.rootValue.value == None {
        return Err(BadData);
      }
      vouched := auditor.rootValue.value.value;
      if exists i | 0 <= i < |auditor.consistency| :: auditor.consistency[i] == None {
        return Err(BadData);
      }
      var checked := VerifyConsistencyProof(a.treeSize, head.treeSize, HashesOf(auditor.consistency), vouched, root);
      if checked.Err? {
        return Err(VerificationFailed);
      }
    } else {
      if auditor.consistency != [] {
        return Err(BadData);
      }
      if auditor.rootValue != None {
        return Err(BadData);
      }
    }
    var header := SignedHeader(ModeByte(config.mode), config.signatureKey, Some(key), a.treeSize, a.timestamp, vouched);
    if !check(key, header, a.signature, AuditorContext) {
      return Err(VerificationFailed);
    }
    return Ok(());
  }

  method VerifyAuditors(config: PublicConfig, fth: FullTreeHead, head: TreeHead, root: Hash, now: int, check: SignatureCheck)
    returns (r: VerifyResult<()>)
    requires head.treeSize <= MAX_TREE_SIZE
    ensures r.Ok? <==> AuditorsOk(config, fth, head, root, now, check)
  {
    hide AuditorOk;
    if !config.mode.ThirdPartyAuditing? {
      return Ok(());
    }
    var keys := config.mode.keys;
    var eq := (key: PublicKey, a: FullAuditorTreeHead) => a.publicKey == key;
    var found := FindMatching(keys, fth.auditorHeads, eq);
    if found == None {
      ghost var k :| 0 <= k < |keys| && NoMatch(keys[k], fth.auditorHeads, eq);
      assert !KeyAudited(config, keys[k], fth, head, root, now, check);
      return Err(BadData);
    }
    var k := 0;
    while k < |keys|
      invariant 0 <= k <= |keys|
      invariant forall m | 0 <= m < k :: KeyAudited(config, keys[m], fth, head, root, now, check)
    {
      var i := found.value[k];
      assert FirstMatch(keys[k], fth.auditorHeads, eq, i);
      assert AuditorFor(keys[k], fth.auditorHeads, i);
      var one := VerifyAuditor(config, keys[k], fth.auditorHeads[i], head, root, now, check);
      if one.Err? {
        assert !KeyAudited(config, keys[k], fth, head, root, now, check) by {
          assert forall j: nat | AuditorFor(keys[k], fth.auditorHeads, j) :: j == i;
        }
        return Err(one.error);
      }
      k := k + 1;
    }
    return Ok(());
  }

  /** Accept a full tree head for the computed root, or say why not; accepting stores head and root. */
  method VerifyFullTreeHead(config: PublicConfig, fth: FullTreeHead, root: Hash, last: Option<LastTreeHead>,
                            distinguished: Option<LastTreeHead>, now: int, check: SignatureCheck)
    returns (r: VerifyResult<LastTreeHead>)
    requires fth.treeHead.Some? ==> fth.treeHead.value.treeSize <= MAX_TREE_SIZE
    ensures r.Ok? <==> HeadAccepted(config, fth, root, last, distinguished, now, check)
    ensures r.Ok? ==> r.value == LastTreeHead(fth.treeHead.value, root)
  {
    hide ConsistentWith, SignaturesOk, AuditorsOk, TimestampOk;
    if fth.treeHead == None {
      return Err(RequiredFieldMissing);
    }
    var head := fth.treeHead.value;
    var step := CheckConsistency(head, root, fth.last, last);
    if step.Err? {
      return Err(step.error);
    }
    step := CheckConsistency(head, root, fth.distinguished, distinguished);
    if step.Err? {
      return Err(step.error);
    }
    step := VerifySignatures(config, head, root, check);
    if step.Err? {
      return Err(step.error);
    }
    if !TimestampOk(head.timestamp, MILLIS_PER_DAY, MILLIS_PER_DAY, now) {
      return Err(BadData);
    }
    step := VerifyAuditors(config, fth, head, root, now, check);
    if step.Err? {
      return Err(step.error);
    }
    return Ok(LastTreeHead(head, root));
  }

  // ---------------------------------------------------------------------------------------------
  // What is demanded, against the log the root stands for.

  /** The first signature for the key is the server's signature over this header. */
  ghost predicate FirstSigns(signer: PublicKey, key: PublicKey, sigs: seq<Signature>, header: SignedHeader, check: SignatureCheck) {
    exists i: nat | i < |sigs| && sigs[i].auditorKey == key && forall j | 0 <= j < i :: sigs[j].auditorKey != key ::
      check(signer, header, sigs[i].bytes, HeadContext)
  }

  /** The server's signatures: for each configured key, over the deployment mode, both keys, the size, the
  timestamp and the root. */
  lemma SignaturesMean(config: PublicConfig, head: TreeHead, root: Hash, check: SignatureCheck)
    ensures SignaturesOk(config, head, root, check) <==>
              match config.mode
              case ContactMonitoring => true
              case ThirdPartyManagement(keys) =>
                forall key | key in keys ::
                  FirstSigns(config.signatureKey, key, head.signatures,
                             SignedHeader(2, config.signatureKey, Some(key), head.treeSize, head.timestamp, root), check)
              case ThirdPartyAuditing(keys) =>
                forall key | key in keys ::
                  FirstSigns(config.signatureKey, key, head.signatures,
                             SignedHeader(3, config.signatureKey, Some(key), head.treeSize, head.timestamp, root), check)
  {
    var keys := AssociatedKeys(config.mode);
    forall key
      ensures KeySigned(config, key, head, root, check)
              <==> FirstSigns(config.signatureKey, key, head.signatures,
                              SignedHeader(ModeByte(config.mode), config.signatureKey, Some(key), head.treeSize, head.timestamp, root), check)
    {
      KeySignedMeans(config, key, head, root, check);
    }
    hide KeySigned, FirstSigns;
    if SignaturesOk(config, head, root, check) {
      forall key | key in keys
        ensures KeySigned(config, key, head, root, check)
      {
        var k :| 0 <= k < |keys| && keys[k] == key;
      }
    } else {
      var k :| 0 <= k < |keys| && !KeySigned(config, keys[k], head, root, check);
      assert keys[k] in keys;
    }
  }

  lemma KeySignedMeans(config: PublicConfig, key: PublicKey, head: TreeHead, root: Hash, check: SignatureCheck)
    ensures KeySigned(config, key, head, root, check)
            <==> FirstSigns(config.signatureKey, key, head.signatures,
                            SignedHeader(ModeByte(config.mode), config.signatureKey, Some(key), head.treeSize, head.timestamp, root), check)
  {
    hide ModeByte;
    if KeySigned(config, key, head, root, check) {
      var i: nat :| SignatureFor(key, head.signatures, i)
                    && check(config.signatureKey, ServerHeader(config, key, head, root), head.signatures[i].bytes, HeadContext);
    }
  }

  /** Against the root of a log: a stored head is the present one, with nothing to prove, or an earlier
  one, with the log's own proof; without one there is nothing to prove. */
  lemma ConsistentMeans(current: TreeHead, proof: seq<Hash>, baseline: Option<LastTreeHead>, log: seq<Hash>)
    requires 1 <= |log| == current.treeSize
    ensures ConsistentWith(current, RootOf(log), proof, baseline) <==>
              match baseline
              case None => proof == []
              case Some(LastTreeHead(TreeHead(size, timestamp, _), root)) =>
                && 1 <= size <= |log| && root == RootOf(log[..size])
                && if size == |log| then timestamp == current.timestamp && proof == []
                   else timestamp <= current.timestamp && proof == HonestProof(size, |log|, log)
  {
    hide VerifyConsistency, RootOf, HonestProof;
    assert log[..|log|] == log;
    if baseline.Some? && baseline.value.head.treeSize != |log| {
      ConsistencyIsExact(baseline.value.head.treeSize, |log|, proof, baseline.value.root, log);
    }
  }

  /** A head is at most a day old or ahead; an auditor's may lag seven days behind. */
  lemma TimestampsMean(timestamp: int, now: int)
    ensures TimestampOk(timestamp, MILLIS_PER_DAY, MILLIS_PER_DAY, now) <==> now - 86_400_000 <= timestamp <= now + 86_400_000
    ensures TimestampOk(timestamp, 7 * MILLIS_PER_DAY, MILLIS_PER_DAY, now) <==> now - 604_800_000 <= timestamp <= now + 86_400_000
  {
  }

  /** Against the root of a log: an auditor's head is of the log's last ten million sizes, comes with the
  root of that prefix and the log's own proof unless it is the present one, and is signed by the auditor. */
  lemma AuditorMeans(config: PublicConfig, key: PublicKey, auditor: FullAuditorTreeHead, head: TreeHead, log: seq<Hash>,
                     now: int, check: SignatureCheck)
    requires 1 <= |log| == head.treeSize && config.mode.ThirdPartyAuditing?
    ensures AuditorOk(config, key, auditor, head, RootOf(log), now, check) <==>
              match auditor.treeHead
              case None => false
              case Some(AuditorTreeHead(size, timestamp, signature)) =>
                && now - 604_800_000 <= timestamp <= now + 86_400_000
                && 1 <= size <= |log| && |log| - size <= 10_000_000
                && (if size == |log| then auditor.consistency == [] && auditor.rootValue == None
                    else
                      && auditor.rootValue == Some(Some(RootOf(log[..size])))
                      && AllHashes(auditor.consistency) && HashesOf(auditor.consistency) == HonestProof(size, |log|, log))
                && check(key, SignedHeader(3, config.signatureKey, Some(key), size, timestamp, RootOf(log[..size])), signature, AuditorContext)
  {
    hide VerifyConsistency, RootOf, HonestProof;
    assert log[..|log|] == log;
    if auditor.treeHead.Some? {
      var a := auditor.treeHead.value;
      var vouched := AuditorRoot(auditor, head, RootOf(log));
      if a.treeSize < |log| && vouched.Some? && AllHashes(auditor.consistency) {
        ConsistencyIsExact(a.treeSize, |log|, HashesOf(auditor.consistency), vouched.value, log);
      }
    }
  }

  // ---------------------------------------------------------------------------------------------
  // What acceptance says about signatures.

  /** Some signature of the head is the server's, made for this head and root. */
  ghost predicate ServerSigned(config: PublicConfig, head: TreeHead, root: Hash, check: SignatureCheck) {
    exists sig | sig in head.signatures ::
      check(config.signatureKey,
            SignedHeader(if config.mode.ThirdPartyManagement? then 2 else 3, config.signatureKey, Some(sig.auditorKey),
                         head.treeSize, head.timestamp, root),
            sig.bytes, HeadContext)
  }

  /** Under this configuration only heads the server signed are accepted. */
  ghost predicate AcceptsOnlySigned(config: PublicConfig) {
    forall fth, root, last, distinguished, now, check | HeadAccepted(config, fth, root, last, distinguished, now, check) ::
      ServerSigned(config, fth.treeHead.value, root, check)
  }

  /** A head without any signature. */
  function Unsigned(size: u64): FullTreeHead {
    FullTreeHead(Some(TreeHead(size, 0, [])), [], [], [])
  }

  /** With no key configured, as in contact monitoring, a first head without any signature is accepted
  for every root and size, even if no signature is valid at all. */
  lemma UnsignedIsAccepted(config: PublicConfig, size: u64, root: Hash)
    requires AssociatedKeys(config.mode) == []
    ensures HeadAccepted(config, Unsigned(size), root, None, None, 0, (k, m, s, c) => false)
  {
  }

  lemma SignedForKey(config: PublicConfig, key: PublicKey, head: TreeHead, root: Hash, check: SignatureCheck)
    requires !config.mode.ContactMonitoring? && KeySigned(config, key, head, root, check)
    ensures ServerSigned(config, head, root, check)
  {
    var i: nat :| SignatureFor(key, head.signatures, i)
                  && check(config.signatureKey, ServerHeader(config, key, head, root), head.signatures[i].bytes, HeadContext);
    assert head.signatures[i] in head.signatures;
  }

  /** Accepted heads are signed by the server exactly if there is a key to look for. */
  lemma SignedExactlyWithKeys(config: PublicConfig)
    ensures AcceptsOnlySigned(config) <==> AssociatedKeys(config.mode) != []
  {
    hide ConsistentWith, AuditorsOk, TimestampOk;
    var keys := AssociatedKeys(config.mode);
    if keys == [] {
      var none: SignatureCheck := (k, m, s, c) => false;
      UnsignedIsAccepted(config, 1, Opaque(0));
      assert !ServerSigned(config, Unsigned(1).treeHead.value, Opaque(0), none);
    } else {
      forall fth, root, last, distinguished, now, check | HeadAccepted(config, fth, root, last, distinguished, now, check)
        ensures ServerSigned(config, fth.treeHead.value, root, check)
      {
        SignedForKey(config, keys[0], fth.treeHead.value, root, check);
      }
    }
  }

  // ---------------------------------------------------------------------------------------------
  // Whole runs.

  /** One accepted head and the circumstances it was accepted in. */
  datatype Accepted = Accepted(fth: FullTreeHead, root: Hash, distinguished: Option<LastTreeHead>, now: int)

  function Stored(a: Accepted): LastTreeHead
    requires a.fth.treeHead.Some?
  {
    LastTreeHead(a.fth.treeHead.value, a.root)
  }

  ghost predicate StepAccepted(run: seq<Accepted>, i: nat, config: PublicConfig, check: SignatureCheck)
    requires i < |run|
  {
    && run[i].fth.treeHead.Some? && run[i].fth.treeHead.value.treeSize >= 1
    && (i > 0 ==> run[i - 1].fth.treeHead.Some?)
    && HeadAccepted(config, run[i].fth, run[i].root, if i == 0 then None else Some(Stored(run[i - 1])),
                    run[i].distinguished, run[i].now, check)
  }

  /** Each head is accepted against the one stored before it. */
  ghost predicate IsRun(run: seq<Accepted>, config: PublicConfig, check: SignatureCheck) {
    forall i | 0 <= i < |run| :: StepAccepted(run, i, config, check)
  }

  function SizeOf(a: Accepted): nat {
    if a.fth.treeHead.Some? then a.fth.treeHead.value.treeSize else 0
  }

  function TimeOf(a: Accepted): int {
    if a.fth.treeHead.Some? then a.fth.treeHead.value.timestamp else 0
  }

  /** root is the root over the first size entries of the log. */
  ghost predicate Commits(root: Hash, size: nat, log: seq<Hash>) {
    1 <= size <= |log| && root == RootOf(log[..size])
  }

  /** A head consistent with a baseline carries the log back to it. */
  lemma CommitsBack(current: TreeHead, root: Hash, proof: seq<Hash>, baseline: LastTreeHead, log: seq<Hash>)
    requires ConsistentWith(current, root, proof, Some(baseline)) && Commits(root, current.treeSize, log)
    ensures Commits(baseline.root, baseline.head.treeSize, log)
    ensures baseline.head.treeSize <= current.treeSize && baseline.head.timestamp <= current.timestamp
    ensures baseline.head.treeSize == current.treeSize ==> baseline.root == root
  {
    hide VerifyConsistency, RootOf;
    if baseline.head.treeSize != current.treeSize {
      var log' := log[..current.treeSize];
      ConsistencyIsExact(baseline.head.treeSize, current.treeSize, proof, baseline.root, log');
      assert log'[..baseline.head.treeSize] == log[..baseline.head.treeSize];
    }
  }

  /** Sizes and timestamps never fall, and equal sizes have equal roots and timestamps. */
  lemma {:induction false} RunIsMonotone(run: seq<Accepted>, config: PublicConfig, check: SignatureCheck, i: nat, j: nat)
    requires IsRun(run, config, check) && i <= j < |run|
    ensures SizeOf(run[i]) <= SizeOf(run[j]) && TimeOf(run[i]) <= TimeOf(run[j])
    ensures SizeOf(run[i]) == SizeOf(run[j]) ==> run[i].root == run[j].root && TimeOf(run[i]) == TimeOf(run[j])
    decreases j - i
  {
    hide VerifyConsistency, SignaturesOk, AuditorsOk, TimestampOk;
    assert StepAccepted(run, j, config, check);
    if i < j {
      RunIsMonotone(run, config, check, i, j - 1);
      assert StepAccepted(run, j - 1, config, check);
    }
  }

  /** If the last root commits to a log, every earlier accepted root commits to a prefix of it. */
  lemma {:induction false} RunIsAppendOnly(run: seq<Accepted>, config: PublicConfig, check: SignatureCheck, i: nat, log: seq<Hash>)
    requires IsRun(run, config, check) && i < |run|
    requires Commits(run[|run| - 1].root, SizeOf(run[|run| - 1]), log)
    ensures Commits(run[i].root, SizeOf(run[i]), log)
    decreases |run| - i
  {
    hide VerifyConsistency, SignaturesOk, AuditorsOk, TimestampOk, ConsistentWith, Commits;
    assert StepAccepted(run, i, config, check);
    if i + 1 < |run| {
      RunIsAppendOnly(run, config, check, i + 1, log);
      var a := run[i + 1];
      assert StepAccepted(run, i + 1, config, check);
      CommitsBack(a.fth.treeHead.value, a.root, HashesOf(a.fth.last), Stored(run[i]), log);
    }
  }

  /** So does the distinguished head it was checked against. */
  lemma RunBindsDistinguished(run: seq<Accepted>, config: PublicConfig, check: SignatureCheck, i: nat, log: seq<Hash>)
    requires IsRun(run, config, check) && i < |run| && run[i].distinguished.Some?
    requires Commits(run[|run| - 1].root, SizeOf(run[|run| - 1]), log)
    ensures Commits(run[i].distinguished.value.root, run[i].distinguished.value.head.treeSize, log)
  {
    hide VerifyConsistency, SignaturesOk, AuditorsOk, TimestampOk, ConsistentWith, Commits;
    RunIsAppendOnly(run, config, check, i, log);
    var a := run[i];
    assert StepAccepted(run, i, config, check);
    CommitsBack(a.fth.treeHead.value, a.root, HashesOf(a.fth.distinguished), a.distinguished.value, log);
  }

  /** Every head of a run was at most a day old or ahead when it was accepted. */
  lemma RunIsRecent(run: seq<Accepted>, config: PublicConfig, check: SignatureCheck, i: nat)
    requires IsRun(run, config, check) && i < |run|
    ensures run[i].now - 86_400_000 <= TimeOf(run[i]) <= run[i].now + 86_400_000
  {
    hide ConsistentWith, SignaturesOk, AuditorsOk;
    assert StepAccepted(run, i, config, check);
  }

  /** Where keys are configured, every accepted head of a run is signed by the server for each of them,
  over the root of the prefix it stands for. */
  lemma RunIsSigned(run: seq<Accepted>, config: PublicConfig, check: SignatureCheck, i: nat, key: PublicKey, log: seq<Hash>)
    requires IsRun(run, config, check) && i < |run| && !config.mode.ContactMonitoring? && key in config.mode.keys
    requires Commits(run[|run| - 1].root, SizeOf(run[|run| - 1]), log)
    ensures run[i].fth.treeHead.Some?
    ensures var head := run[i].fth.treeHead.value;
            && 1 <= head.treeSize <= |log|
            && FirstSigns(config.signatureKey, key, head.signatures,
                          SignedHeader(if config.mode.ThirdPartyManagement? then 2 else 3, config.signatureKey, Some(key),
                                       head.treeSize, head.timestamp, RootOf(log[..head.treeSize])), check)
  {
    hide VerifyConsistency, SignaturesOk, AuditorsOk, TimestampOk, ConsistentWith, FirstSigns, RootOf;
    RunIsAppendOnly(run, config, check, i, log);
    assert StepAccepted(run, i, config, check);
    SignaturesMean(config, run[i].fth.treeHead.value, run[i].root, check);
  }

  /** In auditing mode, so does every auditor root that was accepted, and it was signed by its key. */
  lemma RunBindsAuditors(run: seq<Accepted>, config: PublicConfig, check: SignatureCheck, i: nat, k: nat, log: seq<Hash>)
    returns (auditor: FullAuditorTreeHead)
    requires IsRun(run, config, check) && i < |run|
    requires config.mode.ThirdPartyAuditing? && k < |config.mode.keys|
    requires Commits(run[|run| - 1].root, SizeOf(run[|run| - 1]), log)
    ensures run[i].fth.treeHead.Some?
    ensures auditor in run[i].fth.auditorHeads && auditor.publicKey == config.mode.keys[k]
    ensures auditor.treeHead.Some? && AuditorRoot(auditor, run[i].fth.treeHead.value, run[i].root).Some?
    ensures var a := auditor.treeHead.value; var r := AuditorRoot(auditor, run[i].fth.treeHead.value, run[i].root).value;
            && Commits(r, a.treeSize, log)
            && run[i].now - 604_800_000 <= a.timestamp <= run[i].now + 86_400_000
            && SizeOf(run[i]) - 10_000_000 <= a.treeSize <= SizeOf(run[i])
            && check(config.mode.keys[k],
                     SignedHeader(3, config.signatureKey, Some(config.mode.keys[k]), a.treeSize, a.timestamp, r),
                     a.signature, AuditorContext)
  {
    hide VerifyConsistency, SignaturesOk, ConsistentWith, RootOf;
    RunIsAppendOnly(run, config, check, i, log);
    assert StepAccepted(run, i, config, check);
    var head, root := run[i].fth.treeHead.value, run[i].root;
    assert KeyAudited(config, config.mode.keys[k], run[i].fth, head, root, run[i].now, check);
    var j: nat :| AuditorFor(config.mode.keys[k], run[i].fth.auditorHeads, j)
             && AuditorOk(config, config.mode.keys[k], run[i].fth.auditorHeads[j], head, root, run[i].now, check);
    auditor := run[i].fth.auditorHeads[j];
    var a := auditor.treeHead.value;
    if a.treeSize < head.treeSize {
      var log' := log[..head.treeSize];
      ConsistencyIsExact(a.treeSize, head.treeSize, HashesOf(auditor.consistency),
                         AuditorRoot(auditor, head, root).value, log');
      assert log'[..a.treeSize] == log[..a.treeSize];
    }
  }

  // ---------------------------------------------------------------------------------------------
  // A distinguished head checked on its own.

  /** With nothing stored there is nothing to compare; otherwise the stored head is the one received
  and the distinguished head is the same head or is carried to it by the proof. */
  predicate DistinguishedOk(fth: FullTreeHead, last: Option<LastTreeHead>, distinguished: LastTreeHead) {
    && fth.treeHead.Some?
    && (last.Some? ==>
          && last.value.head.treeSize == fth.treeHead.value.treeSize
          && (if distinguished.head.treeSize == last.value.head.treeSize then last.value.root == distinguished.root
              else
                && AllHashes(fth.distinguished)
                && VerifyConsistency(distinguished.head.treeSize, last.value.head.treeSize, HashesOf(fth.distinguished),
                                     distinguished.root, last.value.root).Ok?))
  }

  method VerifyDistinguished(fth: FullTreeHead, last: Option<LastTreeHead>, distinguished: LastTreeHead)
    returns (r: VerifyResult<()>)
    requires last.Some? ==> last.value.head.treeSize <= MAX_TREE_SIZE
    ensures r.Ok? <==> DistinguishedOk(fth, last, distinguished)
  {
    hide VerifyConsistency;
    if fth.treeHead == None {
      return Err(RequiredFieldMissing);
    }
    var size: u64 := fth.treeHead.value.treeSize;
    if last == None {
      return Ok(());
    }
    if last.value.head.treeSize != size {
      return Err(BadData);
    }
    if size == distinguished.head.treeSize {
      return if last.value.root == distinguished.root then Ok(()) else Err(BadData);
    }
    if exists i | 0 <= i < |fth.distinguished| :: fth.distinguished[i] == None {
      return Err(BadData);
    }
    var checked := VerifyConsistencyProof(distinguished.head.treeSize, size, HashesOf(fth.distinguished),
                                          distinguished.root, last.value.root);
    return if checked.Ok? then Ok(()) else Err(VerificationFailed);
  }

  /** With nothing stored every head will do.  Otherwise, against the log the stored head stands for: the
  head received has its size, and the distinguished head is that of a prefix, with the log's own proof unless
  the prefix is all of it. */
  lemma DistinguishedMeans(fth: FullTreeHead, last: Option<LastTreeHead>, distinguished: LastTreeHead, log: seq<Hash>)
    requires last.Some? ==> 1 <= |log| == last.value.head.treeSize && last.value.root == RootOf(log)
    ensures DistinguishedOk(fth, last, distinguished) <==>
              && fth.treeHead.Some?
              && (last.Some? ==>
                    var size := distinguished.head.treeSize;
                    && fth.treeHead.value.treeSize == |log| && 1 <= size <= |log| && distinguished.root == RootOf(log[..size])
                    && (size < |log| ==>
                          AllHashes(fth.distinguished) && HashesOf(fth.distinguished) == HonestProof(size, |log|, log)))
  {
    hide VerifyConsistency, RootOf, HonestProof;
    assert log[..|log|] == log;
    if last.Some? && distinguished.head.treeSize != |log| && AllHashes(fth.distinguished) {
      ConsistencyIsExact(distinguished.head.treeSize, |log|, HashesOf(fth.distinguished), distinguished.root, log);
    }
  }

  /** An accepted distinguished head commits to a prefix of whatever the stored head commits to. */
  lemma DistinguishedIsPrefix(fth: FullTreeHead, last: LastTreeHead, distinguished: LastTreeHead, log: seq<Hash>)
    requires DistinguishedOk(fth, Some(last), distinguished) && Commits(last.root, last.head.treeSize, log)
    ensures Commits(distinguished.root, distinguished.head.treeSize, log)
    ensures distinguished.head.treeSize <= last.head.treeSize
  {
    hide VerifyConsistency, RootOf;
    if distinguished.head.treeSize != last.head.treeSize {
      var log' := log[..last.head.treeSize];
      ConsistencyIsExact(distinguished.head.treeSize, last.head.treeSize, HashesOf(fth.distinguished), distinguished.root, log');
      assert log'[..distinguished.head.treeSize] == log[..distinguished.head.treeSize];
    }
  }
}
