/** Which body a user is served under an A/B test, and which arm is stamped on the call. */
module PromptAdapter {
  import opened Options
  import opened Decimal
  import opened VersionRefs
  import opened AbTests
  import P = PromptLifecycle
  import C = CacheProtocol

  /** SHA-256, a parameter: numbers below 256. */
  type Hash = string -> seq<nat>

  function BigEndian(bytes: seq<nat>): nat {
    if bytes == [] then 0 else BigEndian(bytes[..|bytes| - 1]) * 0x100 + bytes[|bytes| - 1]
  }

  /** UserBucketPct: the first eight bytes of the hash as a number, modulo 100. */
  function UserBucketPct(hash: Hash, userId: string, templateName: string): (pct: nat)
    ensures pct < 100
  {
    if userId == "" then 0
    else
      var h := hash(userId + ":" + templateName);
      BigEndian(if |h| < 8 then h else h[..8]) % 100
  }

  /** Of a hash of at least eight bytes the bucket is the number of its first eight, the first one the highest. */
  lemma BucketOfTheHash(hash: Hash, userId: string, templateName: string)
    requires userId != "" && |hash(userId + ":" + templateName)| >= 8
    ensures var h := hash(userId + ":" + templateName);
            UserBucketPct(hash, userId, templateName) ==
            (h[0] * 0x100_0000_0000_0000 + h[1] * 0x1_0000_0000_0000 + h[2] * 0x100_0000_0000 + h[3] * 0x1_0000_0000
             + h[4] * 0x100_0000 + h[5] * 0x1_0000 + h[6] * 0x100 + h[7]) % 100
  {
    var h := hash(userId + ":" + templateName);
    EightBytes(h);
    assert |h| == 8 ==> h[..8] == h;
  }

  /** A call without a user has the bucket 0, which every test would take if it were asked. */
  lemma BucketOfNobody(hash: Hash, templateName: string, trafficPct: int)
    requires trafficPct > 0
    ensures UserBucketPct(hash, "", templateName) == 0 && InArm(0, trafficPct)
  {
  }

  lemma BigEndianStep(h: seq<nat>, k: nat)
    requires k < |h|
    ensures BigEndian(h[..k + 1]) == BigEndian(h[..k]) * 0x100 + h[k]
  {
    assert h[..k + 1][..k] == h[..k];
  }

  lemma EightBytes(h: seq<nat>)
    requires |h| >= 8
    ensures BigEndian(h[..8]) ==
            h[0] * 0x100_0000_0000_0000 + h[1] * 0x1_0000_0000_0000 + h[2] * 0x100_0000_0000 + h[3] * 0x1_0000_0000
            + h[4] * 0x100_0000 + h[5] * 0x1_0000 + h[6] * 0x100 + h[7]
  {
    BigEndianStep(h, 0);
    BigEndianStep(h, 1);
    BigEndianStep(h, 2);
    BigEndianStep(h, 3);
    BigEndianStep(h, 4);
    BigEndianStep(h, 5);
    BigEndianStep(h, 6);
    BigEndianStep(h, 7);
  }

  predicate InArm(bucket: int, trafficPct: int) {
    bucket < trafficPct
  }

  /** IsCandidateUser. */
  predicate IsCandidateUser(hash: Hash, userId: string, test: Option<Test>) {
    && test.Some? && test.value.status.Active?
    && userId != ""
    && InArm(UserBucketPct(hash, userId, test.value.templateName), test.value.trafficPct)
  }

  /** The buckets that an active test sends to the candidate. */
  ghost function CandidateBuckets(trafficPct: int): set<int> {
    set b | 0 <= b < 100 && InArm(b, trafficPct)
  }

  /** Of the hundred buckets exactly `trafficPct` get the candidate, and a larger share only adds to them. */
  lemma {:induction false} TrafficShare(trafficPct: int, larger: int)
    requires 0 <= trafficPct <= larger <= 100
    ensures |CandidateBuckets(trafficPct)| == trafficPct
    ensures CandidateBuckets(trafficPct) <= CandidateBuckets(larger)
    decreases trafficPct
  {
    if trafficPct == 0 {
      assert CandidateBuckets(0) == {};
    } else {
      TrafficShare(trafficPct - 1, larger);
      var b := trafficPct - 1;
      assert InArm(b, trafficPct) && InArm(b, larger);
      assert forall c | InArm(c, trafficPct) :: InArm(c, b) || c == b;
      assert forall c | InArm(c, b) :: InArm(c, trafficPct);
      assert CandidateBuckets(trafficPct) == CandidateBuckets(b) + {b};
    }
  }

  /** Raising the share of a running test moves no user out of the candidate arm; nobody without an id is ever in it. */
  lemma CandidatesOnlyGrow(hash: Hash, userId: string, test: Test, larger: int)
    requires test.trafficPct <= larger
    ensures IsCandidateUser(hash, userId, Some(test)) ==>
              IsCandidateUser(hash, userId, Some(test.(trafficPct := larger)))
    ensures !IsCandidateUser(hash, "", Some(test)) && !IsCandidateUser(hash, userId, None)
    ensures test.status.Ended? ==> !IsCandidateUser(hash, userId, Some(test))
    ensures test.status.Active? && userId != "" ==>
              (IsCandidateUser(hash, userId, Some(test)) <==>
               UserBucketPct(hash, userId, test.templateName) in CandidateBuckets(test.trafficPct))
  {
  }

  /** The repository's answer to a lookup by id: an error, no document, or a row. */
  datatype Lookup = Failed | Missing | Doc(body: string)

  /** A body, with the row it came from when it is a candidate's. */
  datatype Served = Candidate(ref: Ref, body: string) | Production(body: string)

  /** BodyForUser, with `test` the cached active test and `production` the cached production body. */
  method BodyForUser(hash: Hash, name: string, userId: string, test: Option<Test>,
                     templates: map<string, Lookup>, production: string) returns (body: string)
    requires test.Some? ==> Int64(test.value.candidateVersion)
    ensures body == Serve(hash, name, userId, test, templates, production).body
  {
    if IsCandidateUser(hash, userId, test) {
      var digits := ItoaShort(test.value.candidateVersion);
      var id := "pt_" + name + "_v" + digits;
      var doc := if id in templates then templates[id] else Missing;
      assert id == CandidateId(Ref(name, test.value.candidateVersion));
      if doc.Doc? && doc.body != "" {
        return doc.body;
      }
    }
    body := production;
  }

  /** The id that is looked up: itoaShort has no digits for the least int64. */
  function CandidateId(r: Ref): string {
    if r.version == MIN_INT then "pt_" + r.name + "_v-" else RowId(r)
  }

  /** The candidate's row can be served: it is found and has a body. */
  predicate Usable(templates: map<string, Lookup>, r: Ref) {
    CandidateId(r) in templates && templates[CandidateId(r)].Doc? && templates[CandidateId(r)].body != ""
  }

  function Serve(hash: Hash, name: string, userId: string, test: Option<Test>,
                 templates: map<string, Lookup>, production: string): Served {
    if IsCandidateUser(hash, userId, test) && Usable(templates, Ref(name, test.value.candidateVersion)) then
      var r := Ref(name, test.value.candidateVersion);
      Candidate(r, templates[CandidateId(r)].body)
    else
      Production(production)
  }

  /** CandidateVersionForUser: the arm that is stamped on the ledger. */
  function CandidateVersionForUser(hash: Hash, userId: string, test: Option<Test>): int {
    if IsCandidateUser(hash, userId, test) then test.value.candidateVersion else 0
  }

  function ServedVersion(served: Served): int {
    match served
    case Candidate(r, _) => r.version
    case Production(_) => 0
  }

  /**
   * One call: the stamp names the body that was served exactly unless the user is in the
   * candidate arm and its row cannot be served.
   */
  lemma StampUnlessUnusable(hash: Hash, name: string, userId: string, test: Option<Test>,
                            templates: map<string, Lookup>, production: string)
    requires test.Some? ==> test.value.candidateVersion > 0
    ensures CandidateVersionForUser(hash, userId, test) ==
              ServedVersion(Serve(hash, name, userId, test, templates, production))
            <==> !(IsCandidateUser(hash, userId, test) && !Usable(templates, Ref(name, test.value.candidateVersion)))
  {
  }

  // ---- The stamp over the life of the templates ----

  function IdOf(key: P.Key): string {
    RowId(Ref(key.name, key.version))
  }

  /** Look-ups in a table of templates: the row's body, unless the look-up itself fails. */
  ghost predicate AnswersFrom(templates: map<string, Lookup>, rows: P.Rows) {
    forall k | k in rows ::
      IdOf(k) in templates && (templates[IdOf(k)] == Failed || templates[IdOf(k)] == Doc(rows[k].body))
  }

  /** The version that a test sends its share of the users to. */
  function CandidateKey(test: Test): P.Key {
    P.Key(test.templateName, test.candidateVersion)
  }

  /** The two tests put the user in the same arm: both in production, or both in that of one version. */
  predicate SameArm(hash: Hash, userId: string, served: Option<Test>, stamped: Option<Test>) {
    && (IsCandidateUser(hash, userId, served) <==> IsCandidateUser(hash, userId, stamped))
    && (IsCandidateUser(hash, userId, served) ==> served.value.candidateVersion == stamped.value.candidateVersion)
  }

  /** The user is in the candidate arm and the look-up of the row fails. */
  predicate LookupFails(hash: Hash, userId: string, test: Option<Test>, templates: map<string, Lookup>) {
    && IsCandidateUser(hash, userId, test)
    && IdOf(CandidateKey(test.value)) in templates && templates[IdOf(CandidateKey(test.value))] == Failed
  }

  /** A test of this template whose candidate is in the table. */
  ghost predicate StartedOnFound(test: Option<Test>, name: string, rows: P.Rows) {
    test.Some? ==> test.value.templateName == name && CandidateKey(test.value) in rows
  }

  /**
   * A body is served under one reading of the cached test and stamped under another. The served
   * test was started on a version that is found; from then on, whatever is created, seeded and
   * promoted, the stamp is the served version exactly when both readings put the user in the
   * same arm or, after a failed look-up, the second one in production. A served candidate has
   * the body it had when its test was started.
   */
  lemma StampIsServedVersion(run: seq<P.Sys>, events: seq<P.Event>, start: nat, n: nat, hash: Hash,
                             name: string, userId: string, served: Option<Test>, stamped: Option<Test>,
                             templates: map<string, Lookup>, production: string)
    requires P.IsRun(run, events) && P.Written(run[0]) && forall e | e in events && e.SeedList? :: e.body != ""
    requires start <= n < |run| && AnswersFrom(templates, run[n].rows)
    requires StartedOnFound(served, name, run[start].rows)
    requires stamped.Some? ==> stamped.value.candidateVersion > 0
    ensures var body := Serve(hash, name, userId, served, templates, production);
            && (CandidateVersionForUser(hash, userId, stamped) == ServedVersion(body)
                <==> if LookupFails(hash, userId, served, templates) then !IsCandidateUser(hash, userId, stamped)
                     else SameArm(hash, userId, served, stamped))
            && (body.Candidate? ==> body.body == run[start].rows[CandidateKey(served.value)].body)
  {
    if served.Some? {
      var key := CandidateKey(served.value);
      P.InvRun(run, events, start);
      P.BodiesAreForever(run, events, start, n);
      P.BodiesAreWritten(run, events, n);
      assert key in run[n].rows && run[n].rows[key].body == run[start].rows[key].body != "" && key.version >= 1;
      assert CandidateId(Ref(name, key.version)) == IdOf(key);
      StampUnlessUnusable(hash, name, userId, served, templates, production);
    }
  }

  /** What the cache's answer stands for. */
  function TestOf(tests: string -> Test, answer: Option<string>): Option<Test> {
    match answer
    case Some(text) => Some(tests(text))
    case None => None
  }

  /**
   * With no invalidation between the two readings and the cache not expired by the second, they
   * give the same test: the stamp is then wrong exactly when the look-up fails.
   */
  lemma StampWithinOneFill(s: C.Sys, e: C.Event, between: seq<C.Event>, e': C.Event, tests: string -> Test,
                           run: seq<P.Sys>, events: seq<P.Event>, start: nat, n: nat, hash: Hash,
                           name: string, userId: string, templates: map<string, Lookup>, production: string)
    requires C.Inv(s) && C.Answering(s, e) && C.Invalidate !in between
    requires C.Answering(C.Run(C.Next(s, e), between), e')
    requires C.Run(C.Next(s, e), between).clock < C.Next(s, e).exp
    requires s.readers[e.i].name == name == C.Run(C.Next(s, e), between).readers[e'.i].name
    requires P.IsRun(run, events) && P.Written(run[0]) && forall e | e in events && e.SeedList? :: e.body != ""
    requires start <= n < |run| && AnswersFrom(templates, run[n].rows)
    requires var u := C.Next(s, e);
             u.readers[e.i].Answered? && StartedOnFound(TestOf(tests, u.readers[e.i].answer), name, run[start].rows)
    ensures var u, v := C.Next(s, e), C.Next(C.Run(C.Next(s, e), between), e');
            && v.readers[e'.i].Answered?
            && var served, stamped := TestOf(tests, u.readers[e.i].answer), TestOf(tests, v.readers[e'.i].answer);
            CandidateVersionForUser(hash, userId, stamped)
            == ServedVersion(Serve(hash, name, userId, served, templates, production))
            <==> !LookupFails(hash, userId, served, templates)
  {
    C.AnswersAgree(s, e, between, e');
    var served := TestOf(tests, C.Next(s, e).readers[e.i].answer);
    if served.Some? { P.InvRun(run, events, start); }
    StampIsServedVersion(run, events, start, n, hash, name, userId, served, served, templates, production);
  }

  function ZeroHash(text: string): seq<nat> {
    seq(32, _ => 0)
  }

  /** Such a case: a test that can be started, a user in its arm, and a look-up that fails. */
  lemma FailedLookupIsMisstamped()
    ensures var test := Test("t", 2, 50, Active);
            var templates := map[RowId(Ref("t", 2)) := Failed];
            && StartOutcome(map[], "ab_1", test) == Started
            && IsCandidateUser(ZeroHash, "u", Some(test))
            && Serve(ZeroHash, "t", "u", Some(test), templates, "p") == Production("p")
            && CandidateVersionForUser(ZeroHash, "u", Some(test)) == 2
  {
    var eight := ZeroHash("u" + ":" + "t")[..8];
    ZerosAreZero(eight);
  }

  lemma {:induction false} ZerosAreZero(bytes: seq<nat>)
    requires forall i | 0 <= i < |bytes| :: bytes[i] == 0
    ensures BigEndian(bytes) == 0
    decreases |bytes|
  {
    if bytes != [] { ZerosAreZero(bytes[..|bytes| - 1]); }
  }

  /** A served candidate is the body of the row of exactly that template and version. */
  lemma ServedRowIsTheCandidates(hash: Hash, name: string, userId: string, test: Option<Test>,
                                 rows: map<string, Row>, production: string)
    requires Keyed(rows) && (test.Some? ==> test.value.candidateVersion > 0)
    ensures var templates := map id | id in rows :: Doc(rows[id].body);
            var served := Serve(hash, name, userId, test, templates, production);
            served.Candidate? ==>
              && served.body != ""
              && exists id :: id in rows && rows[id].ref == Ref(name, test.value.candidateVersion)
                              && rows[id].body == served.body
  {
    var templates := map id | id in rows :: Doc(rows[id].body);
    var served := Serve(hash, name, userId, test, templates, production);
    if served.Candidate? {
      var r := Ref(name, test.value.candidateVersion);
      assert RowId(r) in rows;
      RowIdInjective(r, rows[RowId(r)].ref);
    }
  }
}
