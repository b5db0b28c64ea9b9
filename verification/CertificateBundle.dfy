/**
 The bundle of trusted authorities and peer certificates
 (src/security/certificate.rs): admission with delegation, expiry, and the two
 indexes by subject key and by node id.
 */
module CertificateBundles {
  import opened Wrappers
  import opened Bytes
  import opened Collections
  import opened CertificateCodec

  datatype BundleError = InvalidSignature | UntrustedIssuer

  datatype Bundle = Bundle(
    authorities: seq<Key>, certificates: map<Key, Certificate>, nodeIdIndex: map<Text, Key>)

  const EMPTY: Bundle := Bundle([], map[], map[])

  function AddAuthority(b: Bundle, key: Key): Bundle {
    if key in b.authorities then b else b.(authorities := b.authorities + [key])
  }

  /** A listed authority, or the subject of a stored certificate that may enroll, is valid now and verifies. */
  predicate TrustedIssuer(b: Bundle, verifier: Verifier, issuer: Key, now: U64) {
    || issuer in b.authorities
    || (&& issuer in b.certificates
        && b.certificates[issuer].MayEnroll()
        && b.certificates[issuer].IsValid(now)
        && b.certificates[issuer].Verifies(verifier))
  }

  function Store(b: Bundle, cert: Certificate): Bundle {
    b.(certificates := b.certificates[cert.subject := cert],
       nodeIdIndex := if cert.nodeId == [] then b.nodeIdIndex else b.nodeIdIndex[cert.nodeId := cert.subject])
  }

  function AddCertificate(b: Bundle, verifier: Verifier, cert: Certificate, now: U64): Result<Bundle, BundleError> {
    if !cert.Verifies(verifier) then Err(InvalidSignature)
    else if !cert.IsRoot() && !TrustedIssuer(b, verifier, cert.issuer, now) then Err(UntrustedIssuer)
    else Ok(Store(b, cert))
  }

  function ExpiredNodeIds(b: Bundle, now: U64): set<Text> {
    set key | key in b.certificates && !b.certificates[key].IsValid(now) && b.certificates[key].nodeId != []
      :: b.certificates[key].nodeId
  }

  /** Drops every certificate outside its window at `now`, and the node ids those certificates carry. */
  function RemoveExpired(b: Bundle, now: U64): Bundle {
    b.(certificates := map key | key in b.certificates && b.certificates[key].IsValid(now) :: b.certificates[key],
       nodeIdIndex := b.nodeIdIndex - ExpiredNodeIds(b, now))
  }

  predicate ValidatePeer(b: Bundle, verifier: Verifier, key: Key, now: U64) {
    key in b.certificates && b.certificates[key].IsValid(now) && b.certificates[key].Verifies(verifier)
  }

  predicate ValidateNodeId(b: Bundle, verifier: Verifier, nodeId: Text, now: U64) {
    && nodeId in b.nodeIdIndex
    && b.nodeIdIndex[nodeId] in b.certificates
    && b.certificates[b.nodeIdIndex[nodeId]].IsValid(now)
    && b.certificates[b.nodeIdIndex[nodeId]].Verifies(verifier)
  }

  class CertificateBundle {
    const verifier: Verifier
    var authorities: seq<Key>
    var certificates: map<Key, Certificate>
    var nodeIdIndex: map<Text, Key>

    ghost function View(): Bundle
      reads this
    {
      Bundle(authorities, certificates, nodeIdIndex)
    }

    constructor (verifier: Verifier)
      ensures View() == EMPTY && this.verifier == verifier
    {
      this.verifier := verifier;
      authorities, certificates, nodeIdIndex := [], map[], map[];
    }

    method TrustAuthority(key: Key)
      modifies this`authorities
      ensures View() == AddAuthority(old(View()), key) && old(authorities) <= authorities
      ensures Elements(authorities) == Elements(old(authorities)) + {key}
      ensures Distinct(old(authorities)) ==> Distinct(authorities)
    {
      ElementsSnoc(authorities, key);
      if key !in authorities {
        authorities := authorities + [key];
      }
    }

    method Admit(cert: Certificate, now: U64) returns (r: Result<(), BundleError>)
      modifies this
      ensures var next := AddCertificate(old(View()), verifier, cert, now);
              if next.Ok? then r == Ok(()) && View() == next.value
              else r == Err(next.error) && View() == old(View())
    {
      if !cert.Verifies(verifier) {
        return Err(InvalidSignature);
      }
      if !cert.IsRoot() {
        var trusted := IsTrustedIssuer(cert.issuer, now);
        if !trusted {
          return Err(UntrustedIssuer);
        }
      }
      if cert.nodeId != [] {
        nodeIdIndex := nodeIdIndex[cert.nodeId := cert.subject];
      }
      certificates := certificates[cert.subject := cert];
      return Ok(());
    }

    method IsTrustedIssuer(issuer: Key, now: U64) returns (trusted: bool)
      ensures trusted == TrustedIssuer(View(), verifier, issuer, now)
    {
      if issuer in authorities {
        return true;
      }
      if issuer in certificates {
        var issuerCert := certificates[issuer];
        if issuerCert.MayEnroll() && issuerCert.IsValid(now) {
          if issuerCert.Verifies(verifier) {
            return true;
          }
        }
      }
      return false;
    }

    /** Visits the certificates in no particular order. */
    method PurgeExpired(now: U64) returns (removed: nat)
      modifies this
      ensures View() == RemoveExpired(old(View()), now)
      ensures removed == |old(certificates)| - |certificates|
    {
      hide Purged, RemoveExpired;
      ghost var b := View();
      var todo := certificates.Keys;
      removed := 0;
      PurgeStart(b, now);
      while todo != {}
        invariant todo <= b.certificates.Keys
        invariant View() == Purged(b, todo, now)
        invariant removed == |b.certificates| - |certificates|
      {
        var key :| key in todo;
        PurgeStep(b, todo, key, now);
        var cert := certificates[key];
        if !cert.IsValid(now) {
          if cert.nodeId != [] {
            nodeIdIndex := nodeIdIndex - {cert.nodeId};
          }
          certificates := certificates - {key};
          removed := removed + 1;
        }
        todo := todo - {key};
      }
      PurgeEnd(b, now);
    }

    method IsValidPeer(key: Key, now: U64) returns (ok: bool)
      ensures ok == ValidatePeer(View(), verifier, key, now)
    {
      if key !in certificates {
        return false;
      }
      var cert := certificates[key];
      return cert.IsValid(now) && cert.Verifies(verifier);
    }

    method IsValidNodeId(nodeId: Text, now: U64) returns (ok: bool)
      ensures ok == ValidateNodeId(View(), verifier, nodeId, now)
    {
      if nodeId !in nodeIdIndex || nodeIdIndex[nodeId] !in certificates {
        return false;
      }
      var cert := certificates[nodeIdIndex[nodeId]];
      return cert.IsValid(now) && cert.Verifies(verifier);
    }
  }

  /** The node ids of the expired certificates already visited. */
  ghost function VisitedNodeIds(b: Bundle, todo: set<Key>, now: U64): set<Text> {
    set key | key in b.certificates && key !in todo && !b.certificates[key].IsValid(now)
              && b.certificates[key].nodeId != []
      :: b.certificates[key].nodeId
  }

  /** The bundle part way through expiry, with the certificates in `todo` still to visit. */
  ghost function Purged(b: Bundle, todo: set<Key>, now: U64): Bundle {
    b.(certificates := Kept(b.certificates, todo, now),
       nodeIdIndex := b.nodeIdIndex - VisitedNodeIds(b, todo, now))
  }

  ghost function Kept(certificates: map<Key, Certificate>, todo: set<Key>, now: U64): map<Key, Certificate> {
    map key | key in certificates && (key in todo || certificates[key].IsValid(now)) :: certificates[key]
  }

  lemma PurgeStart(b: Bundle, now: U64)
    ensures Purged(b, b.certificates.Keys, now) == b
  {
    assert VisitedNodeIds(b, b.certificates.Keys, now) == {};
  }

  lemma PurgeEnd(b: Bundle, now: U64)
    ensures Purged(b, {}, now) == RemoveExpired(b, now)
  {
    assert VisitedNodeIds(b, {}, now) == ExpiredNodeIds(b, now);
  }

  lemma PurgeStep(b: Bundle, todo: set<Key>, key: Key, now: U64)
    requires key in todo && key in b.certificates
    ensures key in Purged(b, todo, now).certificates
    ensures var cert, p, p' := b.certificates[key], Purged(b, todo, now), Purged(b, todo - {key}, now);
            && p.certificates[key] == cert
            && p.authorities == p'.authorities
            && p'.certificates == (if cert.IsValid(now) then p.certificates else p.certificates - {key})
            && p'.nodeIdIndex == (if cert.IsValid(now) || cert.nodeId == [] then p.nodeIdIndex
                                  else p.nodeIdIndex - {cert.nodeId})
            && (!cert.IsValid(now) ==> |p'.certificates| == |p.certificates| - 1)
  {
    hide VisitedNodeIds;
    var cert := b.certificates[key];
    VisitOne(b, todo, key, now);
    KeptStep(b.certificates, todo, key, now);
    if !cert.IsValid(now) {
      RemoveKeySize(Kept(b.certificates, todo, now), key);
    }
    RemoveTwice(b.nodeIdIndex, VisitedNodeIds(b, todo, now), cert.nodeId);
    assert VisitedNodeIds(b, todo, now) + {} == VisitedNodeIds(b, todo, now);
  }

  lemma RemoveTwice<K, V>(m: map<K, V>, s: set<K>, x: K)
    ensures m - (s + {x}) == (m - s) - {x}
  {
  }

  lemma KeptStep(certificates: map<Key, Certificate>, todo: set<Key>, key: Key, now: U64)
    requires key in todo && key in certificates
    ensures Kept(certificates, todo - {key}, now)
         == if certificates[key].IsValid(now) then Kept(certificates, todo, now)
            else Kept(certificates, todo, now) - {key}
  {
    var m, m' := Kept(certificates, todo, now), Kept(certificates, todo - {key}, now);
    if certificates[key].IsValid(now) {
      assert m'.Keys == m.Keys;
    } else {
      assert m'.Keys == m.Keys - {key};
    }
  }

  lemma VisitOne(b: Bundle, todo: set<Key>, key: Key, now: U64)
    requires key in todo && key in b.certificates
    ensures var cert := b.certificates[key];
            VisitedNodeIds(b, todo - {key}, now)
            == VisitedNodeIds(b, todo, now) + (if !cert.IsValid(now) && cert.nodeId != [] then {cert.nodeId} else {})
  {
  }

  lemma RemoveKeySize<K, V>(m: map<K, V>, key: K)
    requires key in m
    ensures |m - {key}| == |m| - 1
  {
    assert (m - {key}).Keys == m.Keys - {key};
  }

  // --- Runs ---

  datatype Operation =
    | Authority(key: Key)
    | Add(cert: Certificate, now: U64)
    | Expire(now: U64)

  /** A certificate the bundle admitted, when, and what it knew then: its authorities and the issuer's certificate. */
  datatype Admission = Admission(cert: Certificate, at: U64, authorities: seq<Key>, issuerCert: Option<Certificate>)

  function AdmissionTo(b: Bundle, cert: Certificate, now: U64): Admission {
    Admission(cert, now, b.authorities,
              if cert.issuer in b.certificates then Some(b.certificates[cert.issuer]) else None)
  }

  datatype Trace = Trace(bundle: Bundle, log: seq<Admission>)

  function Step(verifier: Verifier, t: Trace, op: Operation): Trace {
    match op
    case Authority(key) => t.(bundle := AddAuthority(t.bundle, key))
    case Expire(now) => t.(bundle := RemoveExpired(t.bundle, now))
    case Add(cert, now) =>
      var next := AddCertificate(t.bundle, verifier, cert, now);
      if next.Ok? then Trace(next.value, t.log + [AdmissionTo(t.bundle, cert, now)]) else t
  }

  function Run(verifier: Verifier, ops: seq<Operation>): Trace {
    if ops == [] then Trace(EMPTY, [])
    else Step(verifier, Run(verifier, ops[..|ops| - 1]), ops[|ops| - 1])
  }

  // --- Delegation lineage ---

  /** The j-th admission is the last of its subject before the k-th. */
  predicate LastBefore(log: seq<Admission>, k: nat, j: nat)
    requires j < k <= |log|
  {
    forall i :: j < i < k ==> log[i].cert.subject != log[j].cert.subject
  }

  /** The k-th admission relied on the j-th: the certificate its issuer had stored then, with ENROLL and inside its window. */
  ghost predicate ReliesOn(log: seq<Admission>, k: nat, j: nat)
    requires j < k < |log|
  {
    && log[j].cert.subject == log[k].cert.issuer && LastBefore(log, k, j)
    && log[k].issuerCert == Some(log[j].cert)
    && EnrollBit(log[j].cert.permissions)
    && InWindow(log[j].cert, log[k].at)
  }

  /** From its issue on and, unless its expiry is zero, before it. */
  predicate InWindow(cert: Certificate, now: U64) {
    cert.issuedAt <= now && (cert.expiresAt != 0 ==> now < cert.expiresAt)
  }

  /** Self-signed, or issued by an authority listed at the time. */
  predicate Anchored(a: Admission) {
    a.cert.IsRoot() || a.cert.issuer in a.authorities
  }

  ghost predicate Justified(log: seq<Admission>, k: nat)
    requires k < |log|
  {
    Anchored(log[k]) || exists j :: 0 <= j < k && ReliesOn(log, k, j)
  }

  /** The certificate is the last admitted for its subject. */
  ghost predicate Latest(log: seq<Admission>, cert: Certificate) {
    exists j :: 0 <= j < |log| && log[j].cert == cert && LastBefore(log, |log|, j)
  }

  ghost predicate Sound(verifier: Verifier, t: Trace) {
    && (forall k :: 0 <= k < |t.log| ==>
          t.log[k].cert.Verifies(verifier) && t.log[k].authorities <= t.bundle.authorities)
    && (forall k :: 0 <= k < |t.log| ==> Justified(t.log, k))
    && (forall key :: key in t.bundle.certificates ==>
          t.bundle.certificates[key].subject == key && Latest(t.log, t.bundle.certificates[key]))
    && Distinct(t.bundle.authorities)
  }

  lemma {:induction false} RunIsSound(verifier: Verifier, ops: seq<Operation>)
    ensures Sound(verifier, Run(verifier, ops))
  {
    if ops != [] {
      RunIsSound(verifier, ops[..|ops| - 1]);
      StepIsSound(verifier, Run(verifier, ops[..|ops| - 1]), ops[|ops| - 1]);
    }
  }

  lemma StepIsSound(verifier: Verifier, t: Trace, op: Operation)
    requires Sound(verifier, t)
    ensures Sound(verifier, Step(verifier, t, op))
  {
    hide Justified, Latest;
    if op.Add? && AddCertificate(t.bundle, verifier, op.cert, op.now).Ok? {
      AdmissionIsSound(verifier, t, op.cert, op.now);
    }
  }

  lemma AdmissionIsSound(verifier: Verifier, t: Trace, cert: Certificate, now: U64)
    requires Sound(verifier, t) && AddCertificate(t.bundle, verifier, cert, now).Ok?
    ensures Sound(verifier, Trace(Store(t.bundle, cert), t.log + [AdmissionTo(t.bundle, cert, now)]))
  {
    hide Justified, Latest;
    var log, n := t.log + [AdmissionTo(t.bundle, cert, now)], |t.log|;
    forall k | 0 <= k < n ensures Justified(log, k) {
      StillJustified(t.log, log[n], k);
    }
    AdmissionIsJustified(verifier, t, cert, now);
    var b := Store(t.bundle, cert);
    forall key | key in b.certificates ensures Latest(log, b.certificates[key]) {
      LatestStep(t.log, log[n], b.certificates[key]);
    }
  }

  lemma StillJustified(log: seq<Admission>, a: Admission, k: nat)
    requires k < |log| && Justified(log, k)
    ensures Justified(log + [a], k)
  {
    if !Anchored(log[k]) {
      var j :| 0 <= j < k && ReliesOn(log, k, j);
      assert ReliesOn(log + [a], k, j);
    }
  }

  lemma AdmissionIsJustified(verifier: Verifier, t: Trace, cert: Certificate, now: U64)
    requires Sound(verifier, t) && AddCertificate(t.bundle, verifier, cert, now).Ok?
    ensures Justified(t.log + [AdmissionTo(t.bundle, cert, now)], |t.log|)
  {
    hide Certificate.Verifies, Certificate.MayEnroll, EnrollBit;
    var log, n := t.log + [AdmissionTo(t.bundle, cert, now)], |t.log|;
    if !Anchored(log[n]) {
      var issuerCert := t.bundle.certificates[cert.issuer];
      assert Latest(t.log, issuerCert);
      var j :| 0 <= j < n && t.log[j].cert == issuerCert && LastBefore(t.log, n, j);
      MayEnrollIsBit(issuerCert);
      assert ReliesOn(log, n, j);
    }
  }

  lemma LatestStep(log: seq<Admission>, a: Admission, cert: Certificate)
    requires cert == a.cert || (cert.subject != a.cert.subject && Latest(log, cert))
    ensures Latest(log + [a], cert)
  {
    var longer := log + [a];
    if cert == a.cert {
      assert longer[|log|].cert == cert && LastBefore(longer, |longer|, |log|);
    } else {
      var j :| 0 <= j < |log| && log[j].cert == cert && LastBefore(log, |log|, j);
      assert longer[j].cert == cert && LastBefore(longer, |longer|, j);
    }
  }

  /** Admissions, latest first, each relying on the next, the last anchored in a root or an authority listed then. */
  ghost predicate Chain(log: seq<Admission>, chain: seq<nat>) {
    && |chain| > 0
    && (forall i :: 0 <= i < |chain| ==> chain[i] < |log|)
    && (forall i :: 0 < i < |chain| ==> chain[i] < chain[i - 1] && ReliesOn(log, chain[i - 1], chain[i]))
    && Anchored(log[chain[|chain| - 1]])
  }

  lemma {:induction false} ChainTo(log: seq<Admission>, k: nat) returns (chain: seq<nat>)
    requires k < |log|
    requires forall i :: 0 <= i < |log| ==> Justified(log, i)
    ensures Chain(log, chain) && chain[0] == k
    decreases k
  {
    assert Justified(log, k);
    if Anchored(log[k]) {
      chain := [k];
    } else {
      var j :| 0 <= j < k && ReliesOn(log, k, j);
      var rest := ChainTo(log, j);
      chain := [k] + rest;
    }
  }

  /** In every run each stored certificate verifies, is the last admitted for its key, and heads a finite chain of delegations down to an anchor. */
  lemma StoredHaveLineage(verifier: Verifier, ops: seq<Operation>, key: Key)
    requires key in Run(verifier, ops).bundle.certificates
    ensures var t := Run(verifier, ops);
            var cert := t.bundle.certificates[key];
            && cert.subject == key && cert.Verifies(verifier)
            && exists chain ::
                 Chain(t.log, chain) && t.log[chain[0]].cert == cert && LastBefore(t.log, |t.log|, chain[0])
  {
    hide Run, ReliesOn, Anchored, Certificate.Verifies;
    var t := Run(verifier, ops);
    RunIsSound(verifier, ops);
    var cert := t.bundle.certificates[key];
    assert Latest(t.log, cert);
    var k :| 0 <= k < |t.log| && t.log[k].cert == cert && LastBefore(t.log, |t.log|, k);
    var chain := ChainTo(t.log, k);
  }

  // --- The store as a function of the history ---

  /** The k-th operation offered a certificate that was admitted. */
  predicate AdmittedAt(verifier: Verifier, ops: seq<Operation>, k: nat): (r: bool)
    requires k < |ops|
    ensures r ==> ops[k].Add?
  {
    ops[k].Add? && AddCertificate(Run(verifier, ops[..k]).bundle, verifier, ops[k].cert, ops[k].now).Ok?
  }

  /** The k-th operation leaves a stored certificate alone: it admits none for its subject and purges it only outside its window. */
  predicate Spares(verifier: Verifier, ops: seq<Operation>, k: nat, cert: Certificate)
    requires k < |ops|
  {
    && (AdmittedAt(verifier, ops, k) ==> ops[k].cert.subject != cert.subject)
    && (ops[k].Expire? ==> InWindow(cert, ops[k].now))
  }

  /** The certificate was admitted, and every later operation spares it. */
  ghost predicate Survives(verifier: Verifier, ops: seq<Operation>, cert: Certificate) {
    exists k :: 0 <= k < |ops| && AdmittedAt(verifier, ops, k) && ops[k].cert == cert
                && forall j :: k < j < |ops| ==> Spares(verifier, ops, j, cert)
  }

  predicate IsStored(b: Bundle, cert: Certificate) {
    cert.subject in b.certificates && b.certificates[cert.subject] == cert
  }

  /** In every run a certificate is stored exactly when it was admitted, none was admitted for its subject since, and every purge since found it in its window. */
  lemma {:induction false} StoredIff(verifier: Verifier, ops: seq<Operation>, cert: Certificate)
    ensures IsStored(Run(verifier, ops).bundle, cert) <==> Survives(verifier, ops, cert)
  {
    hide AddCertificate, RemoveExpired, Store, IsStored, AdmittedAt, Spares;
    if ops == [] {
      NothingStored(cert);
    } else {
      var n := |ops| - 1;
      StoredIff(verifier, ops[..n], cert);
      StoredStep(verifier, ops, cert);
      SurvivesStep(verifier, ops, cert);
    }
  }

  lemma NothingStored(cert: Certificate)
    ensures !IsStored(EMPTY, cert)
  {
  }

  lemma StoredStep(verifier: Verifier, ops: seq<Operation>, cert: Certificate)
    requires ops != []
    ensures var n := |ops| - 1;
            IsStored(Run(verifier, ops).bundle, cert) <==>
              || (AdmittedAt(verifier, ops, n) && ops[n].cert == cert)
              || (IsStored(Run(verifier, ops[..n]).bundle, cert) && Spares(verifier, ops, n, cert))
  {
    hide Certificate.Verifies, TrustedIssuer;
    var n := |ops| - 1;
    var b := Run(verifier, ops[..n]).bundle;
    if !ops[n].Add? {
      assert !AdmittedAt(verifier, ops, n);
    }
  }

  lemma SurvivesStep(verifier: Verifier, ops: seq<Operation>, cert: Certificate)
    requires ops != []
    ensures var n := |ops| - 1;
            Survives(verifier, ops, cert) <==>
              || (AdmittedAt(verifier, ops, n) && ops[n].cert == cert)
              || (Survives(verifier, ops[..n], cert) && Spares(verifier, ops, n, cert))
  {
    hide AdmittedAt, Spares;
    var n := |ops| - 1;
    forall k | 0 <= k < n
      ensures AdmittedAt(verifier, ops[..n], k) <==> AdmittedAt(verifier, ops, k)
      ensures Spares(verifier, ops[..n], k, cert) <==> Spares(verifier, ops, k, cert)
    {
      SamePast(verifier, ops, n, k, cert);
    }
    if Survives(verifier, ops[..n], cert) && Spares(verifier, ops, n, cert) {
      var k :| 0 <= k < n && AdmittedAt(verifier, ops[..n], k) && ops[..n][k].cert == cert
               && forall j :: k < j < n ==> Spares(verifier, ops[..n], j, cert);
      assert AdmittedAt(verifier, ops, k) && ops[k].cert == cert;
    }
    if Survives(verifier, ops, cert) {
      var k :| 0 <= k < |ops| && AdmittedAt(verifier, ops, k) && ops[k].cert == cert
               && forall j :: k < j < |ops| ==> Spares(verifier, ops, j, cert);
      if k < n {
        assert AdmittedAt(verifier, ops[..n], k) && ops[..n][k].cert == cert && Spares(verifier, ops, n, cert);
      }
    }
  }

  lemma SamePast(verifier: Verifier, ops: seq<Operation>, n: nat, k: nat, cert: Certificate)
    requires k < n <= |ops|
    ensures AdmittedAt(verifier, ops[..n], k) <==> AdmittedAt(verifier, ops, k)
    ensures Spares(verifier, ops[..n], k, cert) <==> Spares(verifier, ops, k, cert)
  {
    hide Run, AddCertificate;
    assert ops[..n][..k] == ops[..k];
  }

  // --- Trust as a function of the history ---

  /** The key was listed, or a certificate of its own with the ENROLL bit survives and is in its window. */
  ghost predicate Vouched(verifier: Verifier, ops: seq<Operation>, key: Key, now: U64) {
    || (exists k :: 0 <= k < |ops| && ops[k] == Authority(key))
    || (exists delegate :: && Survives(verifier, ops, delegate) && delegate.subject == key
                           && EnrollBit(delegate.permissions) && InWindow(delegate, now))
  }

  lemma TrustedIffVouched(verifier: Verifier, ops: seq<Operation>, key: Key, now: U64)
    ensures TrustedIssuer(Run(verifier, ops).bundle, verifier, key, now) <==> Vouched(verifier, ops, key, now)
  {
    hide Run, Certificate.Verifies, Certificate.MayEnroll, EnrollBit, Justified, Latest, Survives;
    var t := Run(verifier, ops);
    RunIsSound(verifier, ops);
    AuthorityIff(verifier, ops, key);
    if key in t.bundle.certificates {
      var cert := t.bundle.certificates[key];
      LatestVerifies(verifier, t, cert);
      MayEnrollIsBit(cert);
      StoredIff(verifier, ops, cert);
    }
    forall delegate | Survives(verifier, ops, delegate) ensures IsStored(t.bundle, delegate) {
      StoredIff(verifier, ops, delegate);
    }
  }

  /** In every run a certificate offered is admitted exactly when its signature is good and it is a root or its issuer is vouched for. */
  lemma AdmittedIff(verifier: Verifier, ops: seq<Operation>, cert: Certificate, now: U64)
    ensures AddCertificate(Run(verifier, ops).bundle, verifier, cert, now).Ok? <==>
              && verifier(cert.issuer, Signable(cert), cert.signature)
              && (cert.subject == cert.issuer || Vouched(verifier, ops, cert.issuer, now))
    ensures AddCertificate(Run(verifier, ops).bundle, verifier, cert, now) == Err(InvalidSignature) <==>
              !verifier(cert.issuer, Signable(cert), cert.signature)
  {
    hide Run, Vouched, TrustedIssuer, Signable;
    TrustedIffVouched(verifier, ops, cert.issuer, now);
  }

  // --- What validating a peer does not look at ---

  /**
   In every run a stored peer validates exactly when it is in its window, while its
   issuer is trusted exactly when it is the peer itself or is vouched for: listed, or
   with a certificate of its own that may enroll, was neither replaced nor purged, and
   is in its window.
   */
  lemma IssuerTrustedIff(verifier: Verifier, ops: seq<Operation>, key: Key, now: U64)
    requires key in Run(verifier, ops).bundle.certificates
    ensures var b := Run(verifier, ops).bundle;
            var issuer := b.certificates[key].issuer;
            b.certificates[key].IsRoot() || TrustedIssuer(b, verifier, issuer, now) <==>
              issuer == key || Vouched(verifier, ops, issuer, now)
    ensures var b := Run(verifier, ops).bundle;
            ValidatePeer(b, verifier, key, now) <==> InWindow(b.certificates[key], now)
  {
    hide Run, Certificate.Verifies, Justified, Latest, Vouched, TrustedIssuer;
    var t := Run(verifier, ops);
    RunIsSound(verifier, ops);
    LatestVerifies(verifier, t, t.bundle.certificates[key]);
    TrustedIffVouched(verifier, ops, t.bundle.certificates[key].issuer, now);
  }

  /** The authorities of a run are exactly the keys it listed. */
  lemma {:induction false} AuthorityIff(verifier: Verifier, ops: seq<Operation>, key: Key)
    ensures key in Run(verifier, ops).bundle.authorities <==> exists k :: 0 <= k < |ops| && ops[k] == Authority(key)
  {
    if ops != [] {
      var n := |ops| - 1;
      AuthorityIff(verifier, ops[..n], key);
      if key in Run(verifier, ops[..n]).bundle.authorities {
        var k :| 0 <= k < n && ops[..n][k] == Authority(key);
        assert ops[k] == Authority(key);
      }
      if k :| 0 <= k < |ops| && ops[k] == Authority(key) {
        assert k < n ==> ops[..n][k] == Authority(key);
      }
    }
  }

  lemma LatestVerifies(verifier: Verifier, t: Trace, cert: Certificate)
    requires Sound(verifier, t) && Latest(t.log, cert)
    ensures cert.Verifies(verifier)
  {
    hide Certificate.Verifies, Justified;
  }

  // --- The two indexes ---

  predicate Indexed(b: Bundle, id: Text, key: Key) {
    id in b.nodeIdIndex && b.nodeIdIndex[id] == key
  }

  predicate Carries(b: Bundle, key: Key, id: Text) {
    id != [] && key in b.certificates && b.certificates[key].nodeId == id
  }

  /** The node-id index is the inverse view of the stored certificates. */
  ghost predicate Agree(b: Bundle) {
    forall id: Text, key: Key :: Indexed(b, id, key) <==> Carries(b, key, id)
  }

  /** The subject keeps its node id, and no other subject has it. */
  ghost predicate NoClash(b: Bundle, cert: Certificate) {
    && (forall id: Text :: Carries(b, cert.subject, id) ==> id == cert.nodeId)
    && (forall key: Key :: Carries(b, key, cert.nodeId) ==> key == cert.subject)
  }

  lemma StoreEffect(b: Bundle, cert: Certificate, id: Text, key: Key)
    ensures Indexed(Store(b, cert), id, key) <==>
              if id == cert.nodeId != [] then key == cert.subject else Indexed(b, id, key)
    ensures Carries(Store(b, cert), key, id) <==>
              if key == cert.subject then id == cert.nodeId != [] else Carries(b, key, id)
  {
  }

  /** Storing a certificate keeps the indexes in agreement exactly when it clashes with nothing stored. */
  lemma StoreAgreesIff(b: Bundle, cert: Certificate)
    requires Agree(b)
    ensures Agree(Store(b, cert)) <==> NoClash(b, cert)
  {
    hide Store, Indexed, Carries;
    var b' := Store(b, cert);
    if NoClash(b, cert) {
      forall id: Text, key: Key ensures Indexed(b', id, key) <==> Carries(b', key, id) {
        StoreEffect(b, cert, id, key);
        EmptyIsNotCarried(b, key);
        assert Indexed(b, id, key) <==> Carries(b, key, id);
      }
    }
    if Agree(b') {
      forall id: Text | Carries(b, cert.subject, id) ensures id == cert.nodeId {
        StoreEffect(b, cert, id, cert.subject);
        assert Indexed(b', id, cert.subject) <==> Carries(b', cert.subject, id);
      }
      forall key: Key | Carries(b, key, cert.nodeId) ensures key == cert.subject {
        StoreEffect(b, cert, cert.nodeId, key);
        EmptyIsNotCarried(b, key);
        assert Indexed(b', cert.nodeId, key) <==> Carries(b', key, cert.nodeId);
      }
    }
  }

  lemma EmptyIsNotCarried(b: Bundle, key: Key)
    ensures !Carries(b, key, [])
  {
  }

  lemma AuthorityAgrees(b: Bundle, key: Key)
    requires Agree(b)
    ensures Agree(AddAuthority(b, key))
  {
    forall id: Text, k: Key
      ensures Indexed(AddAuthority(b, key), id, k) <==> Carries(AddAuthority(b, key), k, id)
    {
      assert Indexed(b, id, k) <==> Carries(b, k, id);
    }
  }

  lemma RemoveExpiredAgrees(b: Bundle, now: U64)
    requires Agree(b)
    ensures Agree(RemoveExpired(b, now))
  {
    var b' := RemoveExpired(b, now);
    forall id: Text, key: Key ensures Indexed(b', id, key) <==> Carries(b', key, id) {
      assert Indexed(b, id, key) <==> Carries(b, key, id);
      if id in ExpiredNodeIds(b, now) {
        var other :| Carries(b, other, id) && !b.certificates[other].IsValid(now);
        assert Indexed(b, id, other);
      }
    }
  }

  /** Among the admissions, each subject keeps one node id and each non-empty node id one subject. */
  predicate Consistent(log: seq<Admission>) {
    forall i, j :: 0 <= i < |log| && 0 <= j < |log| ==>
      && (log[i].cert.subject == log[j].cert.subject ==> log[i].cert.nodeId == log[j].cert.nodeId)
      && (log[i].cert.nodeId == log[j].cert.nodeId != [] ==> log[i].cert.subject == log[j].cert.subject)
  }

  /** In every run whose admissions are consistent, the node-id index is exactly the inverse view of the stored certificates. */
  lemma {:induction false} RunAgrees(verifier: Verifier, ops: seq<Operation>)
    requires Consistent(Run(verifier, ops).log)
    ensures Agree(Run(verifier, ops).bundle)
  {
    hide Agree, Consistent, Store;
    if ops == [] {
      EmptyAgrees();
    } else {
      var n := |ops| - 1;
      var t := Run(verifier, ops[..n]);
      ConsistentPrefix(t.log, Run(verifier, ops).log);
      RunAgrees(verifier, ops[..n]);
      match ops[n] {
        case Authority(key) =>
          AuthorityAgrees(t.bundle, key);
        case Expire(now) =>
          RemoveExpiredAgrees(t.bundle, now);
        case Add(cert, now) =>
          if AddCertificate(t.bundle, verifier, cert, now).Ok? {
            RunIsSound(verifier, ops[..n]);
            AdmittedDoesNotClash(verifier, t, cert, now);
            StoreAgreesIff(t.bundle, cert);
          }
      }
    }
  }

  lemma EmptyAgrees()
    ensures Agree(EMPTY)
  {
  }

  lemma ConsistentPrefix(log: seq<Admission>, longer: seq<Admission>)
    requires log <= longer && Consistent(longer)
    ensures Consistent(log)
  {
    assert forall i :: 0 <= i < |log| ==> log[i] == longer[i];
  }

  lemma AdmittedDoesNotClash(verifier: Verifier, t: Trace, cert: Certificate, now: U64)
    requires Sound(verifier, t) && Consistent(t.log + [AdmissionTo(t.bundle, cert, now)])
    ensures NoClash(t.bundle, cert)
  {
    hide Certificate.Verifies, Justified;
    var log, n := t.log + [AdmissionTo(t.bundle, cert, now)], |t.log|;
    forall key: Key, id: Text | Carries(t.bundle, key, id)
      ensures key == cert.subject ==> id == cert.nodeId
      ensures id == cert.nodeId ==> key == cert.subject
    {
      assert Latest(t.log, t.bundle.certificates[key]);
      var j :| 0 <= j < n && t.log[j].cert == t.bundle.certificates[key];
      assert log[j].cert == t.bundle.certificates[key] && log[n].cert == cert;
    }
  }

  /** With agreeing indexes, validating a node id is scanning for it and validating the peer found. */
  lemma ValidateNodeIdIsScan(b: Bundle, verifier: Verifier, nodeId: Text, now: U64)
    requires Agree(b)
    ensures ValidateNodeId(b, verifier, nodeId, now) <==>
              && nodeId != []
              && exists key :: key in b.certificates && b.certificates[key].nodeId == nodeId
                               && ValidatePeer(b, verifier, key, now)
  {
    if nodeId in b.nodeIdIndex {
      assert Indexed(b, nodeId, b.nodeIdIndex[nodeId]);
    }
    forall key | key in b.certificates && b.certificates[key].nodeId == nodeId != [] ensures Indexed(b, nodeId, key) {
      assert Carries(b, key, nodeId);
    }
  }

  /** Expiry at `now` takes away exactly the peers outside their window at `now`, also those not yet inside it. */
  lemma ExpiryKeepsValidPeers(b: Bundle, verifier: Verifier, key: Key, now: U64, later: U64)
    ensures ValidatePeer(RemoveExpired(b, now), verifier, key, now) <==> ValidatePeer(b, verifier, key, now)
    ensures ValidatePeer(RemoveExpired(b, now), verifier, key, later) <==>
              ValidatePeer(b, verifier, key, later) && InWindow(b.certificates[key], now)
  {
  }

  // --- Concrete runs ---

  function KeyOf(b: Byte): Key { seq(32, _ => b) }

  /** A certificate for key `b`, signed with anything. */
  function CertificateOf(b: Byte, nodeId: Text, permissions: Byte, from: U64, until: U64, issuer: Byte): Certificate {
    Certificate(KeyOf(b), [], nodeId, Tactical, permissions, from, until, KeyOf(issuer), seq(64, _ => 0))
  }

  lemma KeysDiffer(a: Byte, b: Byte)
    ensures KeyOf(a) == KeyOf(b) <==> a == b
  {
    assert KeyOf(a)[0] == a && KeyOf(b)[0] == b;
  }

  const ACCEPTING: Verifier := (key, message, signature) => true

  lemma RunSnoc(verifier: Verifier, ops: seq<Operation>, op: Operation)
    ensures Run(verifier, ops + [op]) == Step(verifier, Run(verifier, ops), op)
  {
    assert (ops + [op])[..|ops|] == ops;
  }

  const DELEGATE: Certificate := CertificateOf(1, [], 4, 0, 10, 0)
  const PEER: Certificate := CertificateOf(2, [], 0, 0, 100, 1)
  const ENROLLED: Bundle := Bundle([KeyOf(0)], map[KeyOf(1) := DELEGATE, KeyOf(2) := PEER], map[])

  lemma AcceptingAccepts(cert: Certificate)
    ensures cert.Verifies(ACCEPTING)
  {
  }

  lemma DelegateEnrollsPeer()
    ensures Run(ACCEPTING, [Authority(KeyOf(0)), Add(DELEGATE, 5), Add(PEER, 6)]).bundle == ENROLLED
  {
    hide KeyOf, Run, Certificate.Verifies;
    KeysDiffer(0, 1);
    KeysDiffer(1, 2);
    AcceptingAccepts(DELEGATE);
    AcceptingAccepts(PEER);
    var ops: seq<Operation> := [Authority(KeyOf(0)), Add(DELEGATE, 5), Add(PEER, 6)];
    assert ops[..0] == [] && ops[..1] == [] + [ops[0]] && ops[..2] == ops[..1] + [ops[1]] && ops == ops[..2] + [ops[2]];
    RunNothing(ACCEPTING);
    RunSnoc(ACCEPTING, [], ops[0]);
    RunSnoc(ACCEPTING, ops[..1], ops[1]);
    RunSnoc(ACCEPTING, ops[..2], ops[2]);
  }

  /** A member with RELAY and EMERGENCY may not enroll: what it signs is refused. */
  lemma StandardMemberMayNotEnroll()
    ensures var member := CertificateOf(1, [], 3, 0, 10, 0);
            var b := Run(ACCEPTING, [Authority(KeyOf(0)), Add(member, 5)]).bundle;
            && IsStored(b, member)
            && AddCertificate(b, ACCEPTING, PEER, 6) == Err(UntrustedIssuer)
  {
    hide KeyOf, Run, Certificate.Verifies;
    KeysDiffer(0, 1);
    KeysDiffer(1, 2);
    var member := CertificateOf(1, [], 3, 0, 10, 0);
    AcceptingAccepts(member);
    AcceptingAccepts(PEER);
    MayEnrollIff(member, 0, 0, 3);
    var ops: seq<Operation> := [Authority(KeyOf(0)), Add(member, 5)];
    assert ops[..0] == [] && ops[..1] == [] + [ops[0]] && ops == ops[..1] + [ops[1]];
    RunNothing(ACCEPTING);
    RunSnoc(ACCEPTING, [], ops[0]);
    RunSnoc(ACCEPTING, ops[..1], ops[1]);
  }

  /** A delegate enrolls a peer, expires and is purged: the peer still validates, and nobody trusted vouches for it. */
  lemma PeerOutlivesDelegate()
    ensures var ops := [Authority(KeyOf(0)), Add(DELEGATE, 5), Add(PEER, 6)];
            var b := Run(ACCEPTING, ops + [Expire(20)]).bundle;
            && ValidatePeer(b, ACCEPTING, KeyOf(2), 20)
            && b.certificates[KeyOf(2)].issuer == KeyOf(1) != KeyOf(2)
            && !TrustedIssuer(b, ACCEPTING, KeyOf(1), 20)
  {
    hide KeyOf, Run, Certificate.Verifies;
    KeysDiffer(0, 1);
    KeysDiffer(1, 2);
    AcceptingAccepts(PEER);
    DelegateEnrollsPeer();
    RunSnoc(ACCEPTING, [Authority(KeyOf(0)), Add(DELEGATE, 5), Add(PEER, 6)], Expire(20));
  }

  lemma RunNothing(verifier: Verifier)
    ensures Run(verifier, []) == Trace(EMPTY, [])
  {
  }

  /** Two roots with one node id: the index follows the second, and the first still carries it. */
  lemma SharedNodeIdPartsIndexes()
    ensures var first, second := CertificateOf(1, [110], 0, 0, 0, 1), CertificateOf(2, [110], 0, 0, 0, 2);
            Agree(Store(EMPTY, first)) && !Agree(Store(Store(EMPTY, first), second))
    ensures var first, second := CertificateOf(1, [110], 0, 0, 0, 1), CertificateOf(2, [110], 0, 0, 0, 2);
            AddCertificate(EMPTY, ACCEPTING, first, 0) == Ok(Store(EMPTY, first))
            && AddCertificate(Store(EMPTY, first), ACCEPTING, second, 0) == Ok(Store(Store(EMPTY, first), second))
  {
    hide KeyOf, Agree;
    KeysDiffer(1, 2);
    var first, second := CertificateOf(1, [110], 0, 0, 0, 1), CertificateOf(2, [110], 0, 0, 0, 2);
    EmptyAgrees();
    StoreAgreesIff(EMPTY, first);
    StoreAgreesIff(Store(EMPTY, first), second);
    assert Carries(Store(EMPTY, first), KeyOf(1), [110]);
  }

  /** A certificate valid from 100 on is dropped by a purge at 50, and is missing at 150. */
  lemma PurgeDropsFutureCertificate()
    ensures var b := Store(EMPTY, CertificateOf(1, [], 0, 100, 0, 1));
            && ValidatePeer(b, ACCEPTING, KeyOf(1), 150)
            && !ValidatePeer(RemoveExpired(b, 50), ACCEPTING, KeyOf(1), 150)
  {
  }
}
