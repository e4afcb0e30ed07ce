/**
 The one list of findings. Each reader records what it finds as it comes to it: a trail's line when it settles, the
 sidecar's items of that line next, and the rest once both are read. Only the first findings are kept; all are counted.
 */
module OneList {
  import opened Octets
  import opened Chain
  import opened Sidecar
  import opened Signatures
  import opened SignatureReader
  import opened Verifier
  import opened WitnessReader

  datatype TokenFindingName =
    | StampMalformed | StampSignatureInvalid | StampImprintMismatch | StampUsageInvalid | StampPolicyMismatch
    | StampRevoked | StampUntrusted

  /** A stamp whose token is not trusted, at its checkpoint's sequence. */
  datatype TokenFinding = TokenFinding(name: TokenFindingName, line: nat)

  datatype CoverageName = CountersignedCoverageMissing | StampCoverageMissing

  datatype AnyFinding =
    | OfTrail(trail: Finding)
    | OfSidecar(signature: SignatureFinding)
    | OfWitness(statement: WitnessFindingName)
    | OfToken(token: TokenFinding)
    | OfCoverage(name: CoverageName, line: nat)

  /** What is kept of the findings recorded. */
  datatype FindingLog = FindingLog(listed: seq<AnyFinding>, total: nat)

  function Logged(all: seq<AnyFinding>): FindingLog { FindingLog(First(MAX_FINDINGS, all), |all|) }

  method Append(log: FindingLog, more: seq<AnyFinding>, ghost all: seq<AnyFinding>) returns (now: FindingLog)
    requires log == Logged(all)
    ensures now == Logged(all + more)
  {
    now := log;
    assert all + more[..0] == all;
    var i := 0;
    while i < |more|
      invariant 0 <= i <= |more| && now == Logged(all + more[..i])
    {
      LoggedSnoc(all + more[..i], more[i]);
      assert all + more[..i + 1] == all + more[..i] + [more[i]];
      now := FindingLog(if |now.listed| < MAX_FINDINGS then now.listed + [more[i]] else now.listed, now.total + 1);
      i := i + 1;
    }
    assert more[..i] == more;
  }

  lemma LoggedSnoc(all: seq<AnyFinding>, finding: AnyFinding)
    ensures var log := Logged(all);
            Logged(all + [finding]) ==
            FindingLog(if |log.listed| < MAX_FINDINGS then log.listed + [finding] else log.listed, log.total + 1)
  {
  }

  function Trails(findings: seq<Finding>): seq<AnyFinding> {
    seq(|findings|, i requires 0 <= i < |findings| => OfTrail(findings[i]))
  }

  function Sidecars(findings: seq<SignatureFinding>): seq<AnyFinding> {
    seq(|findings|, i requires 0 <= i < |findings| => OfSidecar(findings[i]))
  }

  function Witnesses(findings: seq<WitnessFindingName>): seq<AnyFinding> {
    seq(|findings|, i requires 0 <= i < |findings| => OfWitness(findings[i]))
  }

  function Tokens(findings: seq<TokenFinding>): seq<AnyFinding> {
    seq(|findings|, i requires 0 <= i < |findings| => OfToken(findings[i]))
  }

  // ----- What the reading records -----

  /** How many items are taken once n lines are settled. */
  function TakenBy(items: seq<Item>, n: nat): (taken: nat)
    ensures taken <= |items|
  {
    if n == 0 then 0 else TakenFrom(items, TakenBy(items, n - 1), n)
  }

  /** What was found of these items. */
  ghost function FoundBetween(b: Beside, options: SignatureOptions, items: seq<Item>, from: nat, to: nat)
    : (found: seq<SignatureFinding>)
    requires from <= to <= |items| && options.keys != []
    ensures After(b, options, items, to).found == After(b, options, items, from).found + found
  {
    FoundGrows(b, options, items, from, to);
    After(b, options, items, to).found[|After(b, options, items, from).found|..]
  }

  /** What is recorded while the first n lines settle: each line's findings, then those of the items taken with it. */
  ghost function SettledFindings(b: Beside, options: SignatureOptions, items: seq<Item>, n: nat): seq<AnyFinding>
    requires n <= |b.lines| && options.keys != []
  {
    if n == 0 then []
    else
      SettledFindings(b, options, items, n - 1)
      + Trails(ReportedOf(b.h, b.lines, n - 1))
      + Sidecars(FoundBetween(b, options, items, TakenBy(items, n - 1), TakenBy(items, n)))
  }

  /** What is recorded once both are read: the rest without a newline, and then the items past the last line. */
  ghost function ReadFindings(b: Beside, options: SignatureOptions, sidecar: Bytes, tail: Bytes): seq<AnyFinding>
    requires options.keys != []
  {
    var items, n := ItemsOf(sidecar), |b.lines|;
    SettledFindings(b, options, items, n) + Trails(WithTail([], tail, n + 1))
    + Sidecars(FoundBetween(b, options, items, TakenBy(items, n), |items|))
  }

  // ----- Each reader's own -----

  function TrailPart(all: seq<AnyFinding>): seq<Finding> {
    if all == [] then []
    else TrailPart(all[..|all| - 1]) + if all[|all| - 1].OfTrail? then [all[|all| - 1].trail] else []
  }

  function SidecarPart(all: seq<AnyFinding>): seq<SignatureFinding> {
    if all == [] then []
    else SidecarPart(all[..|all| - 1]) + if all[|all| - 1].OfSidecar? then [all[|all| - 1].signature] else []
  }

  lemma {:induction false} PartsConcat(a: seq<AnyFinding>, b: seq<AnyFinding>)
    ensures TrailPart(a + b) == TrailPart(a) + TrailPart(b)
    ensures SidecarPart(a + b) == SidecarPart(a) + SidecarPart(b)
  {
    if b == [] {
      assert a + b == a;
    } else {
      PartsConcat(a, b[..|b| - 1]);
      assert (a + b)[..|a + b| - 1] == a + b[..|b| - 1];
    }
  }

  lemma {:induction false} PartsOfTrails(findings: seq<Finding>)
    ensures TrailPart(Trails(findings)) == findings && SidecarPart(Trails(findings)) == []
    ensures |Trails(findings)| == |findings|
  {
    if findings != [] {
      PartsOfTrails(findings[..|findings| - 1]);
      assert Trails(findings)[..|findings| - 1] == Trails(findings[..|findings| - 1]);
    }
  }

  lemma {:induction false} PartsOfSidecars(findings: seq<SignatureFinding>)
    ensures TrailPart(Sidecars(findings)) == [] && SidecarPart(Sidecars(findings)) == findings
    ensures |Sidecars(findings)| == |findings|
  {
    if findings != [] {
      PartsOfSidecars(findings[..|findings| - 1]);
      assert Sidecars(findings)[..|findings| - 1] == Sidecars(findings[..|findings| - 1]);
    }
  }

  lemma {:induction false} PartsOfOthers(findings: seq<AnyFinding>)
    requires forall f | f in findings :: !f.OfTrail? && !f.OfSidecar?
    ensures TrailPart(findings) == [] && SidecarPart(findings) == []
  {
    if findings != [] {
      PartsOfOthers(findings[..|findings| - 1]);
    }
  }

  /** Findings of the trail, and then of the sidecar, recorded after others. */
  lemma BothMore(before: seq<AnyFinding>, trail: seq<Finding>, sidecar: seq<SignatureFinding>)
    ensures var all := before + Trails(trail) + Sidecars(sidecar);
            && TrailPart(all) == TrailPart(before) + trail && SidecarPart(all) == SidecarPart(before) + sidecar
            && |all| == |before| + |trail| + |sidecar|
  {
    hide TrailPart, SidecarPart, Trails, Sidecars;
    PartsConcat(before, Trails(trail));
    PartsConcat(before + Trails(trail), Sidecars(sidecar));
    PartsOfTrails(trail);
    PartsOfSidecars(sidecar);
    assert TrailPart(before) + trail + [] == TrailPart(before) + trail;
    assert SidecarPart(before) + [] + sidecar == SidecarPart(before) + sidecar;
  }

  lemma WithTailAdds(findings: seq<Finding>, tail: Bytes, number: nat)
    ensures WithTail(findings, tail, number) == findings + WithTail([], tail, number)
  {
    assert findings + [] == findings;
  }

  lemma {:induction false} SettledParts(b: Beside, options: SignatureOptions, items: seq<Item>, n: nat)
    requires n <= |b.lines| && options.keys != []
    ensures var all := SettledFindings(b, options, items, n);
            && TrailPart(all) == Reported(b.h, b.lines, n)
            && SidecarPart(all) == After(b, options, items, TakenBy(items, n)).found
            && |all| == |Reported(b.h, b.lines, n)| + |After(b, options, items, TakenBy(items, n)).found|
  {
    hide ReportedOf, Step, TrailPart, SidecarPart, Trails, Sidecars;
    if n == 0 {
      PartsOfOthers([]);
    } else {
      SettledParts(b, options, items, n - 1);
      BothMore(SettledFindings(b, options, items, n - 1), ReportedOf(b.h, b.lines, n - 1),
               FoundBetween(b, options, items, TakenBy(items, n - 1), TakenBy(items, n)));
    }
  }

  /** Neither reader's findings are lost, doubled or put out of order by being recorded among the other's. */
  lemma ReadParts(b: Beside, options: SignatureOptions, sidecar: Bytes, tail: Bytes)
    requires options.keys != []
    ensures var all := ReadFindings(b, options, sidecar, tail);
            var reported := WithTail(Reported(b.h, b.lines, |b.lines|), tail, |b.lines| + 1);
            && TrailPart(all) == reported && SidecarPart(all) == ReadSidecar(b, options, sidecar).found
            && |all| == |reported| + |ReadSidecar(b, options, sidecar).found|
  {
    hide Reported, After, TrailPart, SidecarPart, ItemsOf, SettledFindings, Trails, Sidecars, WithTail;
    var items, n := ItemsOf(sidecar), |b.lines|;
    SettledParts(b, options, items, n);
    WithTailAdds(Reported(b.h, b.lines, n), tail, n + 1);
    BothMore(SettledFindings(b, options, items, n), WithTail([], tail, n + 1),
             FoundBetween(b, options, items, TakenBy(items, n), |items|));
  }
}
