/** One configuration's test run: internal/tester/pipeline.go. What the network answers is a
    parameter: an outcome per stage, and one per repeated proxy and domain attempt, each with
    the time it took. */
module Pipeline {
  import opened Median

  datatype Depth = Quick | Standard | Full | Comprehensive

  /** domains is the number of configured domain URLs. */
  datatype Pipeline = Pipeline(
    depth: Depth, tcpTimeout: int, tlsTimeout: int, protoTimeout: int, xrayTimeout: int, domains: nat, probes: int)

  datatype Attempt = Attempt(success: bool, latency: int, took: nat)

  /** proxy(k) and domain(k) answer the k-th end-to-end verification of the run. */
  datatype Network = Network(
    tcp: Attempt, needsTls: bool, tls: Attempt, proto: Attempt, proxy: nat -> Attempt, domain: nat -> Attempt)

  datatype Stage = TcpStage | TlsStage | ProtocolStage | ProxyStage | DomainStage | StabilityStage | Completed

  datatype TestResult = TestResult(
    success: bool, stage: Stage, connect: int, tls: int, handshake: int, response: int, total: nat)

  function NormalizedDepth(p: Pipeline): Depth { if p.depth == Comprehensive then Full else p.depth }

  predicate ChecksDomains(p: Pipeline) { NormalizedDepth(p) == Full && p.domains > 0 }

  /** How many end-to-end verifications a configuration must pass. */
  function Probes(p: Pipeline): nat { if p.probes < 1 then 1 else p.probes }

  // ---- one end-to-end verification ---------------------------------------------------

  datatype Pass = Pass(ok: bool, latency: int, took: nat, stages: nat)

  function VerifyEndToEnd(p: Pipeline, net: Network, k: nat): Pass {
    var x := net.proxy(k);
    if !x.success then Pass(false, x.latency, x.took, 1)
    else if !ChecksDomains(p) then Pass(true, x.latency, x.took, 1)
    else Pass(net.domain(k).success, x.latency, x.took + net.domain(k).took, 2)
  }

  ghost predicate Passes(p: Pipeline, net: Network, k: nat) { VerifyEndToEnd(p, net, k).ok }

  function Latencies(net: Network, n: nat): (r: seq<int>)
    ensures |r| == n && forall k | 0 <= k < n :: r[k] == net.proxy(k).latency
  {
    seq(n, k requires k >= 0 => net.proxy(k).latency)
  }

  /** The cheap stages every depth runs. */
  ghost predicate CheapPass(net: Network) {
    net.tcp.success && (net.needsTls ==> net.tls.success) && net.proto.success
  }

  // ---- budget ------------------------------------------------------------------------

  function Units(p: Pipeline): nat { 3 + Probes(p) + (if ChecksDomains(p) then Probes(p) else 0) }

  function LongestOf(stage: int, others: seq<int>): (r: int)
    ensures r >= stage && forall t | t in others :: r >= t
    ensures r == stage || r in others
  {
    if others == [] then stage
    else
      var r := LongestOf(stage, others[..|others| - 1]);
      assert others == others[..|others| - 1] + [others[|others| - 1]];
      if others[|others| - 1] > r then others[|others| - 1] else r
  }

  function OtherTimeouts(p: Pipeline): seq<int> { [p.tcpTimeout, p.tlsTimeout, p.protoTimeout] }

  /** The longest timeout one stage can have; thirty seconds when none is set. */
  function StageLimit(p: Pipeline): (stage: int)
    ensures stage > 0
    ensures stage >= p.xrayTimeout && stage >= p.tcpTimeout && stage >= p.tlsTimeout && stage >= p.protoTimeout
    ensures stage in [p.xrayTimeout, p.tcpTimeout, p.tlsTimeout, p.protoTimeout, 30_000_000_000]
  {
    var others := OtherTimeouts(p);
    var stage := LongestOf(p.xrayTimeout, others);
    assert others[0] in others && others[1] in others && others[2] in others;
    if stage <= 0 then 30_000_000_000 else stage
  }

  method Budget(p: Pipeline) returns (budget: int)
    ensures budget == Units(p) * StageLimit(p)
  {
    var probes := p.probes;
    if probes < 1 {
      probes := 1;
    }
    var units := 3 + probes;
    if ChecksDomains(p) {
      units := units + probes;
    }
    var stage := p.xrayTimeout;
    var others := OtherTimeouts(p);
    for i := 0 to |others|
      invariant stage == LongestOf(p.xrayTimeout, others[..i])
    {
      assert others[..i + 1][..i] == others[..i];
      if others[i] > stage {
        stage := others[i];
      }
    }
    assert others[..|others|] == others;
    if stage <= 0 {
      stage := 30_000_000_000;
    }
    return units * stage;
  }

  /** Every stage keeps to its own timeout; a domain pass to that of its temporary xray. */
  ghost predicate KeepsTimeouts(p: Pipeline, net: Network) {
    && net.tcp.took <= p.tcpTimeout && net.tls.took <= p.tlsTimeout && net.proto.took <= p.protoTimeout
    && forall k :: net.proxy(k).took <= p.xrayTimeout && net.domain(k).took <= p.xrayTimeout
  }

  /** took is covered by that many stages of the longest timeout. */
  ghost predicate Covered(p: Pipeline, net: Network, took: nat, stages: nat) {
    KeepsTimeouts(p, net) ==> took <= stages * StageLimit(p)
  }

  lemma CoverMore(p: Pipeline, net: Network, took: nat, stages: nat, more: nat, extra: nat)
    requires Covered(p, net, took, stages) && (KeepsTimeouts(p, net) ==> more <= extra * StageLimit(p))
    ensures Covered(p, net, took + more, stages + extra)
  {
  }

  lemma PassCovered(p: Pipeline, net: Network, k: nat)
    requires KeepsTimeouts(p, net)
    ensures var v := VerifyEndToEnd(p, net, k); v.took <= v.stages * StageLimit(p)
  {
  }

  // ---- the run -----------------------------------------------------------------------

  /** The first n verifications passed. */
  ghost predicate AllPass(p: Pipeline, net: Network, n: nat) {
    forall k | 0 <= k < n :: Passes(p, net, k)
  }

  /** tried verifications were made of the n required: all of them passed, or the last one
      made is the first that failed. */
  ghost predicate StoppedAt(p: Pipeline, net: Network, n: nat, tried: nat) {
    && 1 <= tried <= n && AllPass(p, net, tried - 1)
    && (tried < n ==> !Passes(p, net, tried - 1))
  }

  /** Stages a run that makes the given number of verifications can go through at most. */
  function StagesUpTo(p: Pipeline, tried: nat): nat { 3 + tried + (if ChecksDomains(p) then tried else 0) }

  method RunStabilityProbes(p: Pipeline, net: Network)
    returns (latencies: seq<int>, ok: bool, tried: nat, took: nat, stages: nat)
    requires Passes(p, net, 0)
    ensures StoppedAt(p, net, Probes(p), tried) && ok == AllPass(p, net, Probes(p))
    ensures ok ==> latencies == Latencies(net, Probes(p))[1..]
    ensures Covered(p, net, took, stages) && stages <= StagesUpTo(p, tried - 1) - 3
    ensures ok ==> tried == Probes(p) && stages == StagesUpTo(p, tried - 1) - 3
  {
    var probes := p.probes;
    if probes < 1 {
      probes := 1;
    }
    latencies, tried, took, stages := [], 1, 0, 0;
    while tried < probes
      invariant 1 <= tried <= Probes(p) == probes && AllPass(p, net, tried)
      invariant latencies == Latencies(net, tried)[1..]
      invariant Covered(p, net, took, stages) && stages == StagesUpTo(p, tried - 1) - 3
    {
      var v := VerifyEndToEnd(p, net, tried);
      ghost var before := took;
      if KeepsTimeouts(p, net) {
        PassCovered(p, net, tried);
      }
      CoverMore(p, net, took, stages, v.took, v.stages);
      took, stages, tried := took + v.took, stages + v.stages, tried + 1;
      if !v.ok {
        assert !Passes(p, net, tried - 1);
        return latencies, false, tried, took, stages;
      }
      latencies := latencies + [v.latency];
      assert latencies == Latencies(net, tried)[1..];
    }
    ok := true;
  }

  /** The stages before the first tunnel: TCP, TLS where it applies, protocol. */
  method CheapStages(p: Pipeline, net: Network) returns (res: TestResult, stages: nat)
    ensures res.success == CheapPass(net)
    ensures res.stage == if !net.tcp.success then TcpStage
      else if net.needsTls && !net.tls.success then TlsStage else ProtocolStage
    ensures Covered(p, net, res.total, stages)
    ensures stages <= 3
    ensures res.success && net.needsTls ==> stages == 3
  {
    res := TestResult(net.tcp.success, TcpStage, net.tcp.latency, 0, 0, 0, net.tcp.took);
    stages := 1;
    if !net.tcp.success {
      return;
    }

    res := res.(stage := TlsStage);
    if net.needsTls {
      CoverMore(p, net, res.total, stages, net.tls.took, 1);
      res := res.(success := net.tls.success, tls := net.tls.latency, total := res.total + net.tls.took);
      stages := stages + 1;
      if !net.tls.success {
        return;
      }
    }

    CoverMore(p, net, res.total, stages, net.proto.took, 1);
    res := res.(success := net.proto.success, stage := ProtocolStage, handshake := net.proto.latency,
                total := res.total + net.proto.took);
    stages := stages + 1;
  }

  /** The first end-to-end verification, written out in the source: the proxy attempt and, at
      full depth, the domain check. It agrees with VerifyEndToEnd. */
  method FirstVerification(p: Pipeline, net: Network, before: TestResult, stagesBefore: nat)
    returns (res: TestResult, stages: nat)
    requires before.success && Covered(p, net, before.total, stagesBefore)
    ensures res.success == Passes(p, net, 0)
    ensures !res.success ==> res.stage == if net.proxy(0).success then DomainStage else ProxyStage
    ensures res.response == net.proxy(0).latency
    ensures Covered(p, net, res.total, stages)
    ensures stages <= stagesBefore + StagesUpTo(p, 1) - 3
    ensures res.success ==> stages == stagesBefore + StagesUpTo(p, 1) - 3
  {
    var x := net.proxy(0);
    CoverMore(p, net, before.total, stagesBefore, x.took, 1);
    res := before.(success := x.success, stage := ProxyStage, response := x.latency, total := before.total + x.took);
    stages := stagesBefore + 1;
    if x.success && ChecksDomains(p) {
      CoverMore(p, net, res.total, stages, net.domain(0).took, 1);
      res := res.(success := net.domain(0).success, stage := DomainStage, total := res.total + net.domain(0).took);
      stages := stages + 1;
    }
  }

  /** Runs the stages in order, each gated by the ones before it. verifications counts the
      end-to-end verifications started, stages everything that was charged for. */
  method Run(p: Pipeline, net: Network) returns (res: TestResult, verifications: nat, stages: nat)
    ensures res.success <==> CheapPass(net) && (NormalizedDepth(p) == Quick || AllPass(p, net, Probes(p)))
    ensures res.success <==> res.stage == Completed
    ensures verifications > 0 <==> CheapPass(net) && NormalizedDepth(p) != Quick
    ensures verifications > 0 ==> StoppedAt(p, net, Probes(p), verifications)
    ensures res.success && verifications > 0 ==> res.response == MedianOf(Latencies(net, Probes(p)))
    ensures !res.success && verifications > 0 ==> res.response == net.proxy(0).latency
    ensures !res.success && verifications == 1 ==> res.stage == if net.proxy(0).success then DomainStage else ProxyStage
    ensures !res.success && verifications > 1 ==> res.stage == StabilityStage
    ensures stages <= StagesUpTo(p, verifications) <= Units(p)
    ensures res.success && verifications > 0 && net.needsTls ==> stages == Units(p)
    ensures KeepsTimeouts(p, net) ==> res.total <= Units(p) * StageLimit(p)
  {
    verifications := 0;
    res, stages := CheapStages(p, net);
    if res.success && NormalizedDepth(p) == Quick {
      res := res.(stage := Completed);
    } else if res.success {
      verifications := 1;
      res, stages := FirstVerification(p, net, res, stages);
      if res.success {
        var latencies, ok, tried, took, more := RunStabilityProbes(p, net);
        CoverMore(p, net, res.total, stages, took, more);
        verifications, stages := tried, stages + more;
        res := res.(success := ok, stage := StabilityStage, total := res.total + took);
        if ok {
          var median := MedianWithFirst(net, Probes(p), latencies);
          res := res.(stage := Completed, response := median);
        }
      } else {
        assert !Passes(p, net, 0);
      }
    }
    if KeepsTimeouts(p, net) {
      BudgetCovers(p, res.total, stages);
    }
  }

  /** The median over the first pass and the probe passes together. */
  method MedianWithFirst(net: Network, n: nat, latencies: seq<int>) returns (m: int)
    requires n >= 1 && latencies == Latencies(net, n)[1..]
    ensures m == MedianOf(Latencies(net, n))
  {
    var endToEnd := [net.proxy(0).latency] + latencies;
    assert endToEnd == Latencies(net, n);
    var samples := new int[|endToEnd|](i requires 0 <= i < |endToEnd| => endToEnd[i]);
    assert samples[..] == endToEnd;
    m := MedianDuration(samples);
  }

  lemma BudgetCovers(p: Pipeline, took: nat, stages: nat)
    requires took <= stages * StageLimit(p) && stages <= Units(p)
    ensures took <= Units(p) * StageLimit(p)
  {
  }

  // ---- the gate in full --------------------------------------------------------------

  /** What Run calls a success: the cheap stages pass, and above quick depth each of the required
      end-to-end verifications does, at least one, with the domain check at the two full depths when
      there is a domain to check. */
  lemma GateInFull(p: Pipeline, net: Network)
    ensures CheapPass(net) && (NormalizedDepth(p) == Quick || AllPass(p, net, Probes(p))) <==>
      (net.tcp.success && (net.needsTls ==> net.tls.success) && net.proto.success
       && (p.depth.Quick? || forall k: nat | k == 0 || k < p.probes :: VerifiedAt(p, net, k)))
  {
    forall k: nat ensures Passes(p, net, k) <==> VerifiedAt(p, net, k) {
    }
    if AllPass(p, net, Probes(p)) {
      forall k: nat | k == 0 || k < p.probes ensures VerifiedAt(p, net, k) {
        assert Passes(p, net, k);
      }
    }
  }

  /** The k-th verification: the proxied request and, at the two full depths, the domains if any. */
  ghost predicate VerifiedAt(p: Pipeline, net: Network, k: nat) {
    && net.proxy(k).success
    && ((p.depth.Full? || p.depth.Comprehensive?) && p.domains > 0 ==> net.domain(k).success)
  }
}
