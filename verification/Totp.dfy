/**
 * One-time passwords: the code of a counter (RFC 4226), the step that a presented code matches
 * (RFC 6238), and the consumption of steps by concurrent logins. The keyed hash is a parameter;
 * the twenty bytes it returns are numbers below 256.
 */
module Totp {
  import opened Options
  import opened Decimal

  const DIGITS: nat := 6
  const PERIOD: nat := 30
  const SKEW: int := 1

  type Key = string

  /** HMAC-SHA1 of a key and a counter. */
  type Mac = (Key, nat) -> seq<nat>

  ghost predicate IsMac(mac: Mac) {
    forall k, c :: |mac(k, c)| == 20 && forall i | 0 <= i < 20 :: mac(k, c)[i] < 256
  }

  // ---- The code of a counter ----

  /**
   * Dynamic truncation (section 5.3 of RFC 4226): four bytes from the offset in the last byte's
   * low half, without the top bit. The masks are remainders and the shifts products.
   */
  function Truncate(sum: seq<nat>): (r: nat)
    requires |sum| == 20
  {
    var off := sum[19] % 16;
    (sum[off] % 128) * 0x100_0000 + (sum[off + 1] % 256) * 0x1_0000 + (sum[off + 2] % 256) * 0x100 + sum[off + 3] % 256
  }

  function Code(sum: seq<nat>): string
    requires |sum| == 20
  {
    PadDigits(DIGITS, Truncate(sum) % 1_000_000)
  }

  lemma Million()
    ensures Pow10(6) == 1_000_000
  {
    assert Pow10(6) == 10 * Pow10(5) && Pow10(5) == 10 * Pow10(4) && Pow10(4) == 10 * Pow10(3);
  }

  /**
   * hotp: the modulus is built up by a loop over the digits. The code is the six low digits of
   * the number whose four bytes are those of the hash from the offset on, without the top bit.
   */
  method Hotp(mac: Mac, key: Key, counter: nat) returns (code: string)
    requires IsMac(mac)
    ensures code == Code(mac(key, counter))
    ensures |code| == 6 && AllDigits(code)
    ensures var sum := mac(key, counter);
            var off := sum[19] % 16;
            exists n: nat :: Value(code) == n % 1_000_000
                && n / 0x100_0000 == sum[off] % 128 && n / 0x1_0000 % 0x100 == sum[off + 1]
                && n / 0x100 % 0x100 == sum[off + 2] && n % 0x100 == sum[off + 3]
  {
    var sum := mac(key, counter);
    var off := sum[|sum| - 1] % 16;
    var bin := (sum[off] % 128) * 0x100_0000;
    bin := bin + (sum[off + 1] % 256) * 0x1_0000;
    bin := bin + (sum[off + 2] % 256) * 0x100;
    bin := bin + sum[off + 3] % 256;
    var mod := 1;
    for i := 0 to DIGITS
      invariant mod == Pow10(i)
    {
      mod := mod * 10;
    }
    Million();
    code := PadDigits(DIGITS, bin % mod);
    CodeHasSixDigits(sum);
    TruncateBytes(sum);
  }

  /** The bytes of the truncation. */
  lemma TruncateBytes(sum: seq<nat>)
    requires |sum| == 20 && forall i | 0 <= i < 20 :: sum[i] < 256
    ensures var off, n := sum[19] % 16, Truncate(sum);
            && n / 0x100_0000 == sum[off] % 128 && n / 0x1_0000 % 0x100 == sum[off + 1]
            && n / 0x100 % 0x100 == sum[off + 2] && n % 0x100 == sum[off + 3]
  {
    var off := sum[19] % 16;
    TruncateFrom(sum, off);
    FourBytes(sum[off] % 128, sum[off + 1], sum[off + 2], sum[off + 3]);
  }

  lemma TruncateFrom(sum: seq<nat>, off: nat)
    requires |sum| == 20 && off == sum[19] % 16 && forall i | 0 <= i < 20 :: sum[i] < 256
    ensures Truncate(sum) ==
            sum[off] % 128 * 0x100_0000 + sum[off + 1] * 0x1_0000 + sum[off + 2] * 0x100 + sum[off + 3]
  {
    SmallByte(sum[off + 1]);
    SmallByte(sum[off + 2]);
    SmallByte(sum[off + 3]);
  }

  lemma SmallByte(b: nat)
    requires b < 256
    ensures b % 256 == b
  {
  }

  lemma FourBytes(a: nat, b: nat, c: nat, d: nat)
    requires b < 256 && c < 256 && d < 256
    ensures var n := a * 0x100_0000 + b * 0x1_0000 + c * 0x100 + d;
            n / 0x100_0000 == a && n / 0x1_0000 % 0x100 == b && n / 0x100 % 0x100 == c && n % 0x100 == d
  {
    var n := a * 0x100_0000 + b * 0x1_0000 + c * 0x100 + d;
    assert n / 0x100 == a * 0x1_0000 + b * 0x100 + c;
    assert n / 0x1_0000 == a * 0x100 + b;
  }

  /** The example of section 5.4 of RFC 4226: the last byte 5a points to the bytes 50 ef 7f 19. */
  lemma ExampleOfTheStandard(sum: seq<nat>)
    requires |sum| == 20 && forall i | 0 <= i < 20 :: sum[i] < 256
    requires sum[10] == 0x50 && sum[11] == 0xef && sum[12] == 0x7f && sum[13] == 0x19 && sum[19] == 0x5a
    ensures Code(sum) == "872921"
  {
    TruncateFrom(sum, 10);
    SixDigits();
  }

  lemma SixDigits()
    ensures PadDigits(DIGITS, 872921) == "872921"
  {
    assert Digits(8) == "8" && Digits(87) == Digits(8) + "7" && Digits(872) == Digits(87) + "2";
    assert Digits(8729) == Digits(872) + "9" && Digits(87292) == Digits(8729) + "2";
    assert Digits(872921) == Digits(87292) + "1";
    assert Zeros(0) == [];
  }

  /** The truncation has 31 bits, and the code always six digits, that of the low million. */
  lemma CodeHasSixDigits(sum: seq<nat>)
    requires |sum| == 20
    ensures Truncate(sum) < 0x8000_0000
    ensures |Code(sum)| == 6 && AllDigits(Code(sum)) && Value(Code(sum)) == Truncate(sum) % 1_000_000
  {
    var n := Truncate(sum) % 1_000_000;
    Million();
    DigitsShort(n, 6);
    PaddedNumeral(DIGITS, n);
  }

  // ---- The step that a code matches ----

  /** Go's integer division truncates toward zero. */
  function GoQuot(a: int, b: int): int
    requires b > 0
  {
    if a < 0 then -((-a) / b) else a / b
  }

  /** The step of an instant, as an unsigned 64-bit counter. */
  function StepAt(unix: int): nat {
    GoQuot(unix, PERIOD) % U64
  }

  function Neighbour(step: nat, offset: int): nat {
    (step + offset) % U64
  }

  predicate StepMatches(mac: Mac, key: Key, code: string, c: nat) {
    |mac(key, c)| == 20 && Code(mac(key, c)) == code
  }

  /** The first of the previous, the current and the next step whose code was presented. */
  function MatchedStep(mac: Mac, key: Option<Key>, code: string, unix: int): Option<nat> {
    if |code| != DIGITS || key.None? then None
    else
      var step := StepAt(unix);
      if StepMatches(mac, key.value, code, Neighbour(step, -1)) then Some(Neighbour(step, -1))
      else if StepMatches(mac, key.value, code, step) then Some(step)
      else if StepMatches(mac, key.value, code, Neighbour(step, 1)) then Some(Neighbour(step, 1))
      else None
  }

  /** The counter some periods of thirty seconds from an instant, in 64 bits. */
  function CounterAt(unix: int, d: int): nat {
    ((if unix < 0 then -((-unix) / 30) else unix / 30) + d) % 0x1_0000_0000_0000_0000
  }

  function CodeAt(mac: Mac, key: Key, unix: int, d: int): string
    requires IsMac(mac)
  {
    Code(mac(key, CounterAt(unix, d)))
  }

  /**
   * A code matches exactly if it is that of the previous, the current or the next period, and the
   * earliest of them counts.
   */
  ghost predicate IsFirstMatch(mac: Mac, key: Option<Key>, code: string, unix: int, matched: Option<nat>)
    requires IsMac(mac)
  {
    if |code| != 6 || key.None? then matched == None
    else
      && (matched.Some? <==>
          CodeAt(mac, key.value, unix, -1) == code || CodeAt(mac, key.value, unix, 0) == code
          || CodeAt(mac, key.value, unix, 1) == code)
      && (CodeAt(mac, key.value, unix, -1) == code ==> matched == Some(CounterAt(unix, -1)))
      && (CodeAt(mac, key.value, unix, -1) != code == CodeAt(mac, key.value, unix, 0) ==>
            matched == Some(CounterAt(unix, 0)))
      && (matched.Some? ==>
            matched.value in {CounterAt(unix, -1), CounterAt(unix, 0), CounterAt(unix, 1)}
            && Code(mac(key.value, matched.value)) == code)
  }

  lemma MatchedStepIsFirst(mac: Mac, key: Option<Key>, code: string, unix: int)
    requires IsMac(mac)
    ensures IsFirstMatch(mac, key, code, unix, MatchedStep(mac, key, code, unix))
  {
    NeighbourIsCounter(unix, -1);
    NeighbourIsCounter(unix, 0);
    NeighbourIsCounter(unix, 1);
    NeighbourZero(unix);
  }

  lemma NeighbourIsCounter(unix: int, d: int)
    ensures Neighbour(StepAt(unix), d) == CounterAt(unix, d)
  {
    NeighbourIsAway(GoQuot(unix, PERIOD), d);
  }

  /** VerifyTOTPStep: a key that does not decode, or a code of another length, matches nothing. */
  method VerifyTOTPStep(mac: Mac, key: Option<Key>, code: string, unix: int) returns (matched: Option<nat>)
    requires IsMac(mac)
    ensures matched == MatchedStep(mac, key, code, unix)
  {
    if |code| != DIGITS {
      return None;
    }
    if key.None? {
      return None;
    }
    var step := StepAt(unix);
    ghost var was := [StepMatches(mac, key.value, code, Neighbour(step, -1)), StepMatches(mac, key.value, code, step)];
    for offset := -SKEW to SKEW + 1
      invariant offset > -1 ==> !was[0]
      invariant offset > 0 ==> !was[1]
      invariant offset > 1 ==> !StepMatches(mac, key.value, code, Neighbour(step, 1))
    {
      var c := Neighbour(step, offset);
      NeighbourZero(unix);
      var expected := Hotp(mac, key.value, c);
      if expected == code {
        return Some(c);
      }
    }
    matched := None;
  }

  lemma NeighbourZero(unix: int)
    ensures Neighbour(StepAt(unix), 0) == StepAt(unix)
  {
  }

  /** Away from the epoch and the end of 64 bits nothing truncates or wraps. */
  lemma StepIsQuotient(unix: int)
    requires PERIOD <= unix < 0x4000_0000_0000_0000
    ensures StepAt(unix) == unix / PERIOD
    ensures Neighbour(StepAt(unix), -1) == unix / PERIOD - 1 && Neighbour(StepAt(unix), 1) == unix / PERIOD + 1
  {
    var q := unix / PERIOD;
    assert 1 <= q <= unix;
    SmallRemainder(q);
    SmallRemainder(q - 1);
    SmallRemainder(q + 1);
  }

  /** Times of appendix B of RFC 6238, and the two periods around the epoch. */
  lemma StepsOfTheStandard(unix: int)
    ensures StepAt(59) == 1 && StepAt(1111111109) == 0x23523EC && StepAt(20000000000) == 0x27BC86AA
    ensures -30 < unix < 30 ==> StepAt(unix) == 0
  {
  }

  lemma SmallRemainder(n: nat)
    requires n < U64
    ensures n % U64 == n
  {
  }

  /** The counter that is `offset` steps from that of the instant, in the counter's 64 bits. */
  predicate StepsAway(c: nat, unix: int, offset: int) {
    c == CounterAt(unix, offset)
  }

  /** Within a step of the instant; away from the epoch and the end of 64 bits that is meant literally. */
  predicate NearStep(c: nat, unix: int) {
    && (StepsAway(c, unix, -1) || StepsAway(c, unix, 0) || StepsAway(c, unix, 1))
    && (PERIOD <= unix < 0x4000_0000_0000_0000 ==> unix / PERIOD - 1 <= c <= unix / PERIOD + 1)
  }

  lemma NeighbourIsAway(q: int, offset: int)
    ensures (q % U64 + offset) % U64 == (q + offset) % U64
  {
    var k := q / U64;
    assert q + offset == U64 * k + (q % U64 + offset);
    ShiftByPeriods(q % U64 + offset, k);
  }

  lemma ShiftByPeriods(x: int, k: int)
    ensures (x + U64 * k) % U64 == x % U64
  {
  }

  /** At every instant a matched step is the one of now or a neighbour, and its code the presented one. */
  lemma MatchedStepIsNear(mac: Mac, key: Option<Key>, code: string, unix: int)
    requires MatchedStep(mac, key, code, unix).Some?
    ensures var c := MatchedStep(mac, key, code, unix).value;
            NearStep(c, unix) && StepMatches(mac, key.value, code, c)
  {
    NeighbourIsCounter(unix, -1);
    NeighbourIsCounter(unix, 0);
    NeighbourIsCounter(unix, 1);
    NeighbourZero(unix);
    if PERIOD <= unix < 0x4000_0000_0000_0000 { StepIsQuotient(unix); }
  }

  // ---- Recovery codes ----

  /** The hash list without its first occurrence of `want`. */
  function RemoveFirst(stored: seq<string>, want: string): seq<string> {
    if stored == [] then []
    else if stored[0] == want then stored[1..]
    else [stored[0]] + RemoveFirst(stored[1..], want)
  }

  /** ConsumeRecoveryCode, on the hash of the presented code. */
  method ConsumeRecoveryCode(stored: seq<string>, want: string) returns (ok: bool, remaining: seq<string>)
    ensures ok <==> want in stored
    ensures remaining == if ok then RemoveFirst(stored, want) else stored
    ensures ok ==> multiset(remaining) == multiset(stored) - multiset{want}
  {
    for i := 0 to |stored|
      invariant forall j | 0 <= j < i :: stored[j] != want
    {
      if stored[i] == want {
        RemoveFirstAt(stored, want, i);
        assert stored == stored[..i] + [stored[i]] + stored[i + 1..];
        return true, stored[..i] + stored[i + 1..];
      }
    }
    return false, stored;
  }

  lemma {:induction false} RemoveFirstAt(stored: seq<string>, want: string, i: nat)
    requires i < |stored| && stored[i] == want && forall j | 0 <= j < i :: stored[j] != want
    ensures RemoveFirst(stored, want) == stored[..i] + stored[i + 1..]
    decreases |stored|
  {
    if i > 0 {
      RemoveFirstAt(stored[1..], want, i - 1);
      assert stored[..i] == [stored[0]] + stored[1..][..i - 1];
    }
  }

  // ---- Logins ----

  datatype Admin = Admin(enforced: bool, secret: Option<Key>, recovery: seq<string>, lastStep: Option<int>)

  /** The repository's contract: an unset last step counts as 0. */
  function MarkByContract(a: Admin, step: int): (Admin, bool) {
    var last := if a.lastStep.Some? then a.lastStep.value else 0;
    if last < step then (a.(lastStep := Some(step)), true) else (a, false)
  }

  /** The store's statement: its filter `last < step` does not match a record without the field. */
  function MarkByStatement(a: Admin, step: int): (Admin, bool) {
    if a.lastStep.Some? && a.lastStep.value < step then (a.(lastStep := Some(step)), true) else (a, false)
  }

  /** The statement meets the contract exactly for records that have the field, or steps it refuses anyway. */
  lemma StatementMeetsContract(a: Admin, step: int)
    ensures MarkByStatement(a, step) == MarkByContract(a, step) <==> a.lastStep.Some? || step <= 0
  {
    if a.lastStep.None? && step > 0 { assert !MarkByStatement(a, step).1; }
  }

  datatype Phase =
    | Idle
    | Loaded(seen: Admin, presented: string)
    | StepFound(step: nat, at: int)
    | CodeFound(remaining: seq<string>)
    | Passed(mfaVerified: bool)
    | Rejected

  /** A step that let a login through, and the instant at which its code was checked. */
  datatype Use = Use(step: nat, at: int)

  datatype Sys = Sys(byContract: bool, admin: Admin, logins: seq<Phase>, uses: seq<Use>)

  datatype Event =
    | Load(i: nat, presented: string)
    | Check(i: nat, unix: int, hash: string)
    | Mark(i: nat)
    | SaveCodes(i: nat)
    | Enroll(secret: Key, codes: seq<string>)
    | Disable

  /** int64 of an unsigned counter. */
  function AsInt64(c: nat): int {
    if c < 0x8000_0000_0000_0000 then c else c - U64
  }

  /** The signed number with the same 64 bits. */
  lemma AsInt64Means(c: nat)
    requires c < 0x1_0000_0000_0000_0000
    ensures -0x8000_0000_0000_0000 <= AsInt64(c) < 0x8000_0000_0000_0000
    ensures (AsInt64(c) - c) % 0x1_0000_0000_0000_0000 == 0
  {
  }

  function SetPhase(s: Sys, i: nat, ph: Phase): Sys
    requires i < |s.logins|
  {
    s.(logins := s.logins[i := ph])
  }

  /** The second-factor part of Login, after the password, step by step. */
  function Next(mac: Mac, s: Sys, e: Event): Sys {
    match e
    case Enroll(secret, codes) =>
      if secret == "" then s else s.(admin := s.admin.(secret := Some(secret), recovery := codes, enforced := true))
    case Disable => s.(admin := s.admin.(enforced := false, secret := None, recovery := []))
    case Load(i, presented) =>
      if i < |s.logins| && s.logins[i] == Idle then SetPhase(s, i, Loaded(s.admin, presented)) else s
    case Check(i, unix, hash) =>
      if i < |s.logins| && s.logins[i].Loaded? then SetPhase(s, i, CheckFactor(mac, s.logins[i], unix, hash)) else s
    case Mark(i) =>
      if i < |s.logins| && s.logins[i].StepFound? then
        var ph := s.logins[i];
        var step := AsInt64(ph.step);
        var (admin, isNew) := if s.byContract then MarkByContract(s.admin, step) else MarkByStatement(s.admin, step);
        if isNew then SetPhase(s, i, Passed(true)).(admin := admin, uses := s.uses + [Use(ph.step, ph.at)])
        else SetPhase(s, i, Rejected)
      else s
    case SaveCodes(i) =>
      if i < |s.logins| && s.logins[i].CodeFound? then
        SetPhase(s, i, Passed(true)).(admin := s.admin.(recovery := s.logins[i].remaining))
      else s
  }

  /** On the record as it was loaded: no factor to check, a TOTP code, a recovery code, or neither. */
  function CheckFactor(mac: Mac, ph: Phase, unix: int, hash: string): Phase
    requires ph.Loaded?
  {
    if !(ph.seen.enforced && ph.seen.secret.Some? && ph.seen.secret.value != "") then Passed(false)
    else if ph.presented == "" then Rejected
    else
      match MatchedStep(mac, ph.seen.secret, ph.presented, unix)
      case Some(step) => StepFound(step, unix)
      case None =>
        if hash in ph.seen.recovery then CodeFound(RemoveFirst(ph.seen.recovery, hash)) else Rejected
  }

  function Run(mac: Mac, s: Sys, schedule: seq<Event>): Sys {
    if schedule == [] then s else Next(mac, Run(mac, s, schedule[..|schedule| - 1]), schedule[|schedule| - 1])
  }

  predicate Initial(s: Sys) {
    s.uses == [] && forall i | 0 <= i < |s.logins| :: s.logins[i] == Idle
  }

  /** Every use was matched by a code of some secret around the instant of its check. */
  ghost predicate Around(mac: Mac, step: nat, at: int) {
    exists key: Key, code :: MatchedStep(mac, Some(key), code, at) == Some(step)
  }

  ghost predicate Increasing(uses: seq<Use>) {
    forall j, k | 0 <= j < k < |uses| :: AsInt64(uses[j].step) < AsInt64(uses[k].step)
  }

  ghost predicate LastIsStored(uses: seq<Use>, lastStep: Option<int>) {
    uses != [] ==> lastStep == Some(AsInt64(uses[|uses| - 1].step))
  }

  ghost predicate UsesGenuine(mac: Mac, uses: seq<Use>) {
    forall k | 0 <= k < |uses| :: Around(mac, uses[k].step, uses[k].at)
  }

  ghost predicate FoundGenuine(mac: Mac, logins: seq<Phase>) {
    forall i | 0 <= i < |logins| && logins[i].StepFound? :: Around(mac, logins[i].step, logins[i].at)
  }

  ghost predicate Inv(mac: Mac, s: Sys) {
    Increasing(s.uses) && LastIsStored(s.uses, s.admin.lastStep) && UsesGenuine(mac, s.uses)
        && FoundGenuine(mac, s.logins)
  }

  lemma InvCheck(mac: Mac, s: Sys, e: Event)
    requires e.Check? && e.i < |s.logins| && s.logins[e.i].Loaded? && FoundGenuine(mac, s.logins)
    ensures FoundGenuine(mac, Next(mac, s, e).logins)
    ensures Next(mac, s, e).uses == s.uses && Next(mac, s, e).admin == s.admin
  {
    var ph := s.logins[e.i];
    var found := CheckFactor(mac, ph, e.unix, e.hash);
    if found.StepFound? {
      CheckIsGenuine(mac, ph, e.unix, e.hash);
    }
  }

  lemma CheckIsGenuine(mac: Mac, ph: Phase, unix: int, hash: string)
    requires ph.Loaded? && CheckFactor(mac, ph, unix, hash).StepFound?
    ensures var found := CheckFactor(mac, ph, unix, hash);
            found.at == unix && Around(mac, found.step, found.at)
  {
    var found := CheckFactor(mac, ph, unix, hash);
    assert MatchedStep(mac, Some(ph.seen.secret.value), ph.presented, unix) == Some(found.step);
  }

  /** Either statement: a step that is taken is above the stored one, which it replaces. */
  lemma MarkRaises(byContract: bool, a: Admin, step: int)
    ensures var (b, isNew) := if byContract then MarkByContract(a, step) else MarkByStatement(a, step);
            && (isNew ==> b.lastStep == Some(step) && (a.lastStep.Some? ==> a.lastStep.value < step))
            && (!isNew ==> b == a)
  {
  }

  lemma AppendUse(mac: Mac, uses: seq<Use>, lastStep: Option<int>, use: Use)
    requires Increasing(uses) && LastIsStored(uses, lastStep) && UsesGenuine(mac, uses)
    requires lastStep.Some? ==> lastStep.value < AsInt64(use.step)
    requires Around(mac, use.step, use.at)
    ensures Increasing(uses + [use]) && UsesGenuine(mac, uses + [use])
    ensures LastIsStored(uses + [use], Some(AsInt64(use.step)))
  {
    var more := uses + [use];
    var n := |uses|;
    forall j, k | 0 <= j < k < |more| ensures AsInt64(more[j].step) < AsInt64(more[k].step) {
      if k == n && j < n - 1 {
        assert AsInt64(uses[j].step) < AsInt64(uses[n - 1].step);
      }
    }
  }

  lemma InvMark(mac: Mac, s: Sys, e: Event)
    requires Inv(mac, s) && e.Mark? && e.i < |s.logins| && s.logins[e.i].StepFound?
    ensures Inv(mac, Next(mac, s, e))
  {
    var ph := s.logins[e.i];
    assert Around(mac, ph.step, ph.at);
    MarkRaises(s.byContract, s.admin, AsInt64(ph.step));
    var t := Next(mac, s, e);
    if t.logins[e.i].Passed? {
      AppendUse(mac, s.uses, s.admin.lastStep, Use(ph.step, ph.at));
    }
    StillGenuine(mac, s.logins, t.logins);
  }

  lemma StillGenuine(mac: Mac, logins: seq<Phase>, after: seq<Phase>)
    requires FoundGenuine(mac, logins) && |after| == |logins|
    requires forall i | 0 <= i < |after| && after[i].StepFound? :: after[i] == logins[i]
    ensures FoundGenuine(mac, after)
  {
  }

  lemma InvNext(mac: Mac, s: Sys, e: Event)
    requires Inv(mac, s)
    ensures Inv(mac, Next(mac, s, e))
  {
    if e.Check? && e.i < |s.logins| && s.logins[e.i].Loaded? {
      InvCheck(mac, s, e);
    } else if e.Mark? && e.i < |s.logins| && s.logins[e.i].StepFound? {
      InvMark(mac, s, e);
    } else {
      var t := Next(mac, s, e);
      assert t.uses == s.uses && t.admin.lastStep == s.admin.lastStep;
      StillGenuine(mac, s.logins, t.logins);
    }
  }

  lemma {:induction false} InvRun(mac: Mac, s: Sys, schedule: seq<Event>)
    requires Initial(s)
    ensures Inv(mac, Run(mac, s, schedule))
    decreases |schedule|
  {
    if schedule != [] {
      var n := |schedule| - 1;
      InvRun(mac, s, schedule[..n]);
      InvNext(mac, Run(mac, s, schedule[..n]), schedule[n]);
    }
  }

  /**
   * Over every interleaving of logins, enrolments and resets the steps that let a login through
   * strictly increase, so none does so twice, and each is within one step of the instant at
   * which its code was checked. It holds for the contract and for the store's statement.
   */
  lemma StepsAreUsedOnce(mac: Mac, s: Sys, schedule: seq<Event>)
    requires Initial(s)
    ensures var uses := Run(mac, s, schedule).uses;
            && (forall j, k | 0 <= j < k < |uses| :: AsInt64(uses[j].step) < AsInt64(uses[k].step))
            && (forall j, k | 0 <= j < k < |uses| :: uses[j].step != uses[k].step)
            && (forall k | 0 <= k < |uses| :: NearStep(uses[k].step, uses[k].at))
  {
    InvRun(mac, s, schedule);
    var uses := Run(mac, s, schedule).uses;
    forall k | 0 <= k < |uses| ensures NearStep(uses[k].step, uses[k].at) {
      assert Around(mac, uses[k].step, uses[k].at);
      var key: Key, code :| MatchedStep(mac, Some(key), code, uses[k].at) == Some(uses[k].step);
      MatchedStepIsNear(mac, Some(key), code, uses[k].at);
    }
  }

  /** What enrolment and reset leave: the one needs a secret and keeps the last step, the other lifts the factor. */
  lemma EnrolmentAndReset(mac: Mac, s: Sys, secret: Key, codes: seq<string>)
    ensures secret != "" ==>
              Next(mac, s, Enroll(secret, codes)).admin == Admin(true, Some(secret), codes, s.admin.lastStep)
    ensures secret == "" ==> Next(mac, s, Enroll(secret, codes)) == s
    ensures !FactorNeeded(Next(mac, s, Disable).admin) && Next(mac, s, Disable).admin.lastStep == s.admin.lastStep
    ensures Next(mac, s, Enroll(secret, codes)).logins == s.logins == Next(mac, s, Disable).logins
  {
  }

  // ---- Nobody gets in without the factor ----

  ghost predicate FactorNeeded(a: Admin) {
    a.enforced && a.secret.Some? && a.secret.value != ""
  }

  /** What a check decides on the record as it was loaded. */
  lemma CheckDecides(mac: Mac, seen: Admin, presented: string, unix: int, hash: string)
    ensures var ph := CheckFactor(mac, Loaded(seen, presented), unix, hash);
            && (ph == Passed(false) <==> !FactorNeeded(seen))
            && (forall step: nat :: ph == StepFound(step, unix) <==>
                  FactorNeeded(seen) && presented != ""
                  && MatchedStep(mac, seen.secret, presented, unix) == Some(step))
            && (ph.CodeFound? <==>
                  FactorNeeded(seen) && presented != ""
                  && MatchedStep(mac, seen.secret, presented, unix).None? && hash in seen.recovery)
            && (ph.CodeFound? ==> multiset(ph.remaining) == multiset(seen.recovery) - multiset{hash})
            && (ph.Passed? || ph.StepFound? || ph.CodeFound? || ph == Rejected)
  {
    var ph := CheckFactor(mac, Loaded(seen, presented), unix, hash);
    if ph.CodeFound? { RemoveFirstMembers(seen.recovery, hash); }
  }

  lemma {:induction false} RemoveFirstMembers(stored: seq<string>, want: string)
    requires want in stored
    ensures multiset(RemoveFirst(stored, want)) == multiset(stored) - multiset{want}
    decreases |stored|
  {
    assert stored == [stored[0]] + stored[1..];
    if stored[0] != want { RemoveFirstMembers(stored[1..], want); }
  }

  /** Loading and checking, in a login that is at that point. */
  lemma LoadAndCheck(mac: Mac, s: Sys, i: nat, presented: string, seen: Admin, unix: int, hash: string)
    requires i < |s.logins|
    ensures s.logins[i] == Idle ==>
              Next(mac, s, Load(i, presented)) == s.(logins := s.logins[i := Loaded(s.admin, presented)])
    ensures s.logins[i] == Loaded(seen, presented) ==>
              Next(mac, s, Check(i, unix, hash)) ==
              s.(logins := s.logins[i := CheckFactor(mac, Loaded(seen, presented), unix, hash)])
    ensures s.logins[i] != Idle ==> Next(mac, s, Load(i, presented)) == s
  {
  }

  /**
   * The end of a login: a step above the stored one is stored, used and lets it through, any
   * other one is refused; a recovery code lets it through and is struck from the list.
   */
  lemma LastStepOfALogin(mac: Mac, s: Sys, i: nat)
    requires i < |s.logins|
    ensures s.logins[i].StepFound? && s.admin.lastStep.Some? ==>
              var ph, t := s.logins[i], Next(mac, s, Mark(i));
              if s.admin.lastStep.value < AsInt64(ph.step)
              then t == s.(logins := s.logins[i := Passed(true)], uses := s.uses + [Use(ph.step, ph.at)],
                           admin := s.admin.(lastStep := Some(AsInt64(ph.step))))
              else t == s.(logins := s.logins[i := Rejected])
    ensures s.logins[i].CodeFound? ==>
              Next(mac, s, SaveCodes(i)) ==
              s.(logins := s.logins[i := Passed(true)], admin := s.admin.(recovery := s.logins[i].remaining))
  {
  }

  /** The login loaded this record, with this text presented, and later checked it. */
  ghost predicate LoadedIn(mac: Mac, s: Sys, schedule: seq<Event>, i: nat, seen: Admin, presented: string) {
    exists j :: 0 <= j < |schedule| && schedule[j] == Load(i, presented) && Run(mac, s, schedule[..j]).admin == seen
  }

  ghost predicate ShowedCode(mac: Mac, s: Sys, schedule: seq<Event>, i: nat, step: nat, at: int) {
    exists seen, presented ::
      LoadedIn(mac, s, schedule, i, seen, presented) && FactorNeeded(seen)
      && MatchedStep(mac, seen.secret, presented, at) == Some(step)
  }

  /** A recovery code whose hash was on the list of the loaded record. */
  ghost predicate ShowedRecovery(mac: Mac, s: Sys, schedule: seq<Event>, i: nat) {
    exists seen, presented, unix, hash ::
      LoadedIn(mac, s, schedule, i, seen, presented) && FactorNeeded(seen)
      && Check(i, unix, hash) in schedule && hash in seen.recovery
  }

  ghost predicate NeededNone(mac: Mac, s: Sys, schedule: seq<Event>, i: nat) {
    exists seen, presented :: LoadedIn(mac, s, schedule, i, seen, presented) && !FactorNeeded(seen)
  }

  /** How a login got to its phase. */
  ghost predicate Accounted(mac: Mac, s: Sys, schedule: seq<Event>, i: nat, ph: Phase, uses: seq<Use>) {
    match ph
    case Loaded(seen, presented) => LoadedIn(mac, s, schedule, i, seen, presented)
    case StepFound(step, at) => ShowedCode(mac, s, schedule, i, step, at)
    case CodeFound(_) => ShowedRecovery(mac, s, schedule, i)
    case Passed(false) => NeededNone(mac, s, schedule, i)
    case Passed(true) =>
      || ShowedRecovery(mac, s, schedule, i)
      || exists u :: u in uses && ShowedCode(mac, s, schedule, i, u.step, u.at)
    case _ => true
  }

  lemma LoadedStays(mac: Mac, s: Sys, schedule: seq<Event>, n: nat, i: nat, seen: Admin, presented: string)
    requires n <= |schedule| && LoadedIn(mac, s, schedule[..n], i, seen, presented)
    ensures LoadedIn(mac, s, schedule, i, seen, presented)
  {
    var j :| 0 <= j < n && schedule[..n][j] == Load(i, presented) && Run(mac, s, schedule[..n][..j]).admin == seen;
    assert schedule[..n][..j] == schedule[..j];
  }

  lemma AccountedStays(mac: Mac, s: Sys, schedule: seq<Event>, n: nat, i: nat, ph: Phase,
                       uses: seq<Use>, more: seq<Use>)
    requires n <= |schedule| && Accounted(mac, s, schedule[..n], i, ph, uses) && uses <= more
    ensures Accounted(mac, s, schedule, i, ph, more)
  {
    forall seen, presented | LoadedIn(mac, s, schedule[..n], i, seen, presented)
      ensures LoadedIn(mac, s, schedule, i, seen, presented)
    {
      LoadedStays(mac, s, schedule, n, i, seen, presented);
    }
    assert forall e | e in schedule[..n] :: e in schedule;
    assert forall u | u in uses :: u in more;
  }

  lemma CheckAccounted(mac: Mac, s: Sys, schedule: seq<Event>, i: nat, seen: Admin, presented: string,
                       unix: int, hash: string, uses: seq<Use>)
    requires LoadedIn(mac, s, schedule, i, seen, presented) && Check(i, unix, hash) in schedule
    ensures Accounted(mac, s, schedule, i, CheckFactor(mac, Loaded(seen, presented), unix, hash), uses)
  {
    CheckDecides(mac, seen, presented, unix, hash);
  }

  /**
   * In every run each login that passed loaded a record that needs no factor, or presented the
   * code of a step which is among the uses, or one of the recovery codes of the record.
   */
  lemma {:induction false} PassedWithTheFactor(mac: Mac, s: Sys, schedule: seq<Event>, i: nat)
    requires Initial(s) && i < |s.logins|
    ensures var t := Run(mac, s, schedule);
            |t.logins| == |s.logins| && Accounted(mac, s, schedule, i, t.logins[i], t.uses)
    decreases |schedule|
  {
    if schedule != [] {
      var n := |schedule| - 1;
      var e, mid, t := schedule[n], Run(mac, s, schedule[..n]), Run(mac, s, schedule);
      PassedWithTheFactor(mac, s, schedule[..n], i);
      AccountedStays(mac, s, schedule, n, i, mid.logins[i], mid.uses, t.uses);
      if e.Load? && e.i == i && mid.logins[i] == Idle {
        assert LoadedIn(mac, s, schedule, i, mid.admin, e.presented);
      } else if e.Check? && e.i == i && mid.logins[i].Loaded? {
        CheckAccounted(mac, s, schedule, i, mid.logins[i].seen, mid.logins[i].presented, e.unix, e.hash, t.uses);
      } else if e.Mark? && e.i == i && t.logins[i] == Passed(true) && mid.logins[i].StepFound? {
        assert t.uses[|mid.uses|] == Use(mid.logins[i].step, mid.logins[i].at);
        assert t.uses[|mid.uses|] in t.uses;
      }
    }
  }

  /** With the store's statement a record without the field never accepts a step, in any run. */
  lemma {:induction false} UnsetFieldAcceptsNothing(mac: Mac, s: Sys, schedule: seq<Event>)
    requires Initial(s) && !s.byContract && s.admin.lastStep.None?
    ensures Run(mac, s, schedule).uses == [] && Run(mac, s, schedule).admin.lastStep.None?
    ensures !Run(mac, s, schedule).byContract
    decreases |schedule|
  {
    if schedule != [] {
      UnsetFieldAcceptsNothing(mac, s, schedule[..|schedule| - 1]);
    }
  }
}
