/** Path building and the path-length rule of x509.py: the depth-bounded backtracking
    search finds a path exactly when one exists, and the length rule is compared with
    the running counter of section 6.1.4 of RFC 5280. */
module X509Path {
  import opened Options

  datatype Constraints = Constraints(ca: bool, pathLength: Option<nat>)
  datatype Usage = Usage(keyCertSign: bool, digitalSignature: bool)

  /** What path processing looks at. Names, keys and identifiers are numbered. */
  datatype Cert = Cert(der: nat, subject: nat, issuer: nat, key: nat, akid: Option<nat>, skid: Option<nat>,
                       constraints: Option<Constraints>, usage: Option<Usage>,
                       notBefore: int, notAfter: int, unenforcedCritical: bool) {
    predicate IsCa() { constraints.Some? && constraints.value.ca }

    predicate SelfIssued() { issuer == subject }
  }

  /** The outcome of a check that may raise. */
  datatype Answer = Yes | No | Raises

  /** The stores, and the signature check of a certificate under a key. */
  datatype World = World(intermediates: seq<Cert>, roots: seq<Cert>, verify: (Cert, nat) -> Answer)

  datatype Search = Found(chain: seq<Cert>) | Missing | Raised

  const MAX_PATH_DEPTH: nat := 8

  /** _same_entity. */
  predicate SameEntity(a: Cert, b: Cert)
  {
    a.der == b.der || (a.subject == b.subject && a.key == b.key)
  }

  /** _issues. */
  function Issues(w: World, issuer: Cert, child: Cert): Answer
  {
    if child.issuer != issuer.subject then No
    else if child.akid.Some? && issuer.skid.Some? && child.akid != issuer.skid then No
    else w.verify(child, issuer.key)
  }

  // ----- the search

  function Last<T>(s: seq<T>): T
    requires s != []
  {
    s[|s| - 1]
  }

  /** The first loop of _extend_path, from root i on. */
  function AppendRoot(w: World, chain: seq<Cert>, i: nat): Search
    requires chain != [] && i <= |w.roots|
    decreases |w.roots| - i
  {
    if i == |w.roots| then Missing
    else match Issues(w, w.roots[i], Last(chain))
      case Yes => Found(chain + [w.roots[i]])
      case Raises => Raised
      case No => AppendRoot(w, chain, i + 1)
  }

  predicate IsRoot(w: World, c: Cert)
  {
    exists i :: 0 <= i < |w.roots| && SameEntity(c, w.roots[i])
  }

  /** _extend_path. */
  function Extend(w: World, chain: seq<Cert>): Search
    requires 1 <= |chain| <= MAX_PATH_DEPTH + 2
    decreases MAX_PATH_DEPTH + 2 - |chain|, |w.intermediates| + 1
  {
    if |chain| > MAX_PATH_DEPTH + 1 then Missing
    else
      var direct := AppendRoot(w, chain, 0);
      if direct != Missing then direct
      else if IsRoot(w, Last(chain)) then Found(chain)
      else TryCandidates(w, chain, 0)
  }

  /** The last loop of _extend_path, from candidate i on. */
  function TryCandidates(w: World, chain: seq<Cert>, i: nat): Search
    requires 1 <= |chain| <= MAX_PATH_DEPTH + 1 && i <= |w.intermediates|
    decreases MAX_PATH_DEPTH + 2 - |chain|, |w.intermediates| - i
  {
    if i == |w.intermediates| then Missing
    else
      var cand := w.intermediates[i];
      if cand in chain then TryCandidates(w, chain, i + 1)
      else match Issues(w, cand, Last(chain))
        case Raises => Raised
        case No => TryCandidates(w, chain, i + 1)
        case Yes =>
          var result := Extend(w, chain + [cand]);
          if result != Missing then result else TryCandidates(w, chain, i + 1)
  }

  /** build_chain; Missing is the InvalidCertificate of no path. */
  function BuildChain(w: World, leaf: Cert): Search
  {
    if IsRoot(w, leaf) then Found([leaf]) else Extend(w, [leaf])
  }

  // ----- paths

  ghost predicate Linked(w: World, c: seq<Cert>)
  {
    forall i :: 0 <= i < |c| - 1 ==> Issues(w, c[i + 1], c[i]) == Yes
  }

  ghost predicate NoRepeats(c: seq<Cert>)
  {
    forall i, j :: 0 <= i < j < |c| ==> c[i] != c[j]
  }

  /** A walk from the leaf over at most eight intermediates. */
  ghost predicate Walk(w: World, leaf: Cert, c: seq<Cert>)
  {
    && 1 <= |c| <= MAX_PATH_DEPTH + 1 && c[0] == leaf
    && Linked(w, c) && NoRepeats(c)
    && forall i :: 1 <= i < |c| ==> c[i] in w.intermediates
  }

  /** A root issues the end of the walk. */
  ghost predicate Issued(w: World, c: Cert)
  {
    exists i :: 0 <= i < |w.roots| && Issues(w, w.roots[i], c) == Yes
  }

  /** No check of a store certificate as issuer of c raises. */
  ghost predicate QuietAt(w: World, c: Cert)
  {
    && (forall r :: r in w.roots ==> Issues(w, r, c) != Raises)
    && (forall r :: r in w.intermediates ==> Issues(w, r, c) != Raises)
  }

  /** No check that a walk from the leaf can lead to raises. */
  ghost predicate Quiet(w: World, leaf: Cert)
  {
    forall path :: Walk(w, leaf, path) ==> QuietAt(w, Last(path))
  }

  /** The chains build_chain may return: a walk that ends in the entity of a root, or a
      walk followed by a root that issues its end. */
  ghost predicate TrustedChain(w: World, leaf: Cert, c: seq<Cert>)
  {
    || (Walk(w, leaf, c) && IsRoot(w, Last(c)))
    || (|c| >= 2 && Walk(w, leaf, c[..|c| - 1]) && Last(c) in w.roots
        && Issues(w, Last(c), c[|c| - 2]) == Yes && NoRepeats(c))
  }

  /** Before the search goes deeper no root issues any certificate but the last of the
      walk, and the leaf is no root. */
  ghost predicate Unanchored(w: World, c: seq<Cert>)
  {
    && c != [] && !IsRoot(w, c[0])
    && forall i :: 0 <= i < |c| - 1 ==> !Issued(w, c[i])
  }

  lemma {:induction false} AppendRootSound(w: World, chain: seq<Cert>, i: nat)
    requires chain != [] && i <= |w.roots|
    ensures AppendRoot(w, chain, i).Found? ==>
              exists r :: r in w.roots && AppendRoot(w, chain, i).chain == chain + [r] && Issues(w, r, Last(chain)) == Yes
    ensures AppendRoot(w, chain, i) == Missing ==>
              forall j :: i <= j < |w.roots| ==> Issues(w, w.roots[j], Last(chain)) == No
    ensures QuietAt(w, Last(chain)) ==> AppendRoot(w, chain, i) != Raised
    decreases |w.roots| - i
  {
    if i < |w.roots| {
      AppendRootSound(w, chain, i + 1);
      assert w.roots[i] in w.roots;
    }
  }

  /** An appended root is new to the chain: otherwise it would have been appended before. */
  lemma RootIsNew(w: World, leaf: Cert, chain: seq<Cert>, r: Cert)
    requires Walk(w, leaf, chain) && Unanchored(w, chain) && r in w.roots
    ensures r !in chain
  {
    if r in chain {
      var j :| 0 <= j < |chain| && chain[j] == r;
      var i :| 0 <= i < |w.roots| && w.roots[i] == r;
      if j > 0 {
        assert Issues(w, chain[j - 1 + 1], chain[j - 1]) == Yes;
        assert Issued(w, chain[j - 1]);
      }
    }
  }

  lemma AppendedRoot(w: World, leaf: Cert, chain: seq<Cert>, r: Cert)
    requires Walk(w, leaf, chain) && Unanchored(w, chain) && r in w.roots && Issues(w, r, Last(chain)) == Yes
    ensures TrustedChain(w, leaf, chain + [r])
  {
    RootIsNew(w, leaf, chain, r);
    var c := chain + [r];
    assert c[..|c| - 1] == chain;
    assert NoRepeats(c);
  }

  lemma LongerWalk(w: World, leaf: Cert, chain: seq<Cert>, cand: Cert)
    requires Walk(w, leaf, chain) && |chain| <= MAX_PATH_DEPTH && cand in w.intermediates && cand !in chain
    requires Issues(w, cand, Last(chain)) == Yes
    ensures Walk(w, leaf, chain + [cand])
  {}

  /** Every chain the search returns is trusted. */
  lemma {:induction false} ExtendSound(w: World, leaf: Cert, chain: seq<Cert>)
    requires Walk(w, leaf, chain) && Unanchored(w, chain)
    ensures Extend(w, chain).Found? ==> TrustedChain(w, leaf, Extend(w, chain).chain)
    ensures Quiet(w, leaf) ==> Extend(w, chain) != Raised
    decreases MAX_PATH_DEPTH + 2 - |chain|, |w.intermediates| + 1
  {
    hide TryCandidates, Issues;
    AppendRootSound(w, chain, 0);
    var direct := AppendRoot(w, chain, 0);
    if direct.Found? {
      var r :| r in w.roots && direct.chain == chain + [r] && Issues(w, r, Last(chain)) == Yes;
      AppendedRoot(w, leaf, chain, r);
    } else if direct == Missing && !IsRoot(w, Last(chain)) {
      TryCandidatesSound(w, leaf, chain, 0);
    }
  }

  lemma {:induction false} TryCandidatesSound(w: World, leaf: Cert, chain: seq<Cert>, i: nat)
    requires Walk(w, leaf, chain) && Unanchored(w, chain) && !Issued(w, Last(chain)) && i <= |w.intermediates|
    ensures TryCandidates(w, chain, i).Found? ==> TrustedChain(w, leaf, TryCandidates(w, chain, i).chain)
    ensures Quiet(w, leaf) ==> TryCandidates(w, chain, i) != Raised
    decreases MAX_PATH_DEPTH + 2 - |chain|, |w.intermediates| - i
  {
    if i < |w.intermediates| {
      hide Extend, Walk, Unanchored, TrustedChain;
      var cand := w.intermediates[i];
      TryCandidatesSound(w, leaf, chain, i + 1);
      if cand !in chain && Issues(w, cand, Last(chain)) == Yes {
        StepDeeper(w, leaf, chain, cand);
        if |chain| <= MAX_PATH_DEPTH {
          ExtendSound(w, leaf, chain + [cand]);
        } else {
          TooDeep(w, chain + [cand]);
        }
      }
    }
  }

  lemma StepDeeper(w: World, leaf: Cert, chain: seq<Cert>, cand: Cert)
    requires Walk(w, leaf, chain) && Unanchored(w, chain) && !Issued(w, Last(chain))
    requires cand in w.intermediates && cand !in chain && Issues(w, cand, Last(chain)) == Yes
    ensures |chain| <= MAX_PATH_DEPTH ==> Walk(w, leaf, chain + [cand])
    ensures Unanchored(w, chain + [cand]) && 1 <= |chain| <= MAX_PATH_DEPTH + 1
  {
    hide Issues, Issued, IsRoot;
    if |chain| <= MAX_PATH_DEPTH {
      LongerWalk(w, leaf, chain, cand);
    }
  }

  lemma TooDeep(w: World, chain: seq<Cert>)
    requires |chain| == MAX_PATH_DEPTH + 2
    ensures Extend(w, chain) == Missing
  {}

  // ----- completeness

  /** If the search below a walk fails, no continuation of the walk is trusted. */
  lemma {:induction false} ExtendComplete(w: World, leaf: Cert, chain: seq<Cert>, path: seq<Cert>)
    requires Walk(w, leaf, path) && chain != [] && chain <= path && Extend(w, chain) == Missing
    ensures !IsRoot(w, Last(path)) && !Issued(w, Last(path))
    decreases |path| - |chain|
  {
    hide Issues, TryCandidates;
    AppendRootSound(w, chain, 0);
    if chain != path {
      var n := |chain|;
      var cand := path[n];
      assert cand in w.intermediates;
      var k :| 0 <= k < |w.intermediates| && w.intermediates[k] == cand;
      assert Issues(w, path[n - 1 + 1], path[n - 1]) == Yes;
      assert cand !in chain;
      CandidateTried(w, chain, 0, k);
      assert chain + [cand] <= path;
      ExtendComplete(w, leaf, chain + [cand], path);
    }
  }

  /** A failed loop has tried every admissible candidate. */
  lemma {:induction false} CandidateTried(w: World, chain: seq<Cert>, i: nat, k: nat)
    requires 1 <= |chain| <= MAX_PATH_DEPTH + 1 && i <= k < |w.intermediates|
    requires TryCandidates(w, chain, i) == Missing
    requires w.intermediates[k] !in chain && Issues(w, w.intermediates[k], Last(chain)) == Yes
    ensures Extend(w, chain + [w.intermediates[k]]) == Missing
    decreases k - i
  {
    hide Extend, Issues;
    if i < k {
      CandidateTried(w, chain, i + 1, k);
    }
  }

  /** Whatever build_chain returns is a trusted chain. */
  lemma BuildChainSound(w: World, leaf: Cert)
    requires BuildChain(w, leaf).Found?
    ensures TrustedChain(w, leaf, BuildChain(w, leaf).chain)
    ensures var c := BuildChain(w, leaf).chain;
            && 1 <= |c| <= MAX_PATH_DEPTH + 2 && c[0] == leaf && Linked(w, c) && NoRepeats(c)
            && (Last(c) in w.roots || IsRoot(w, Last(c)))
  {
    hide Extend, Issues;
    if !IsRoot(w, leaf) {
      ExtendSound(w, leaf, [leaf]);
    }
    TrustedShape(w, leaf, BuildChain(w, leaf).chain);
  }

  lemma TrustedShape(w: World, leaf: Cert, c: seq<Cert>)
    requires TrustedChain(w, leaf, c)
    ensures 1 <= |c| <= MAX_PATH_DEPTH + 2 && c[0] == leaf && Linked(w, c) && NoRepeats(c)
    ensures Last(c) in w.roots || IsRoot(w, Last(c))
  {
    hide Issues;
    if !(Walk(w, leaf, c) && IsRoot(w, Last(c))) {
      var p := c[..|c| - 1];
      assert p[0] == c[0];
      forall i | 0 <= i < |c| - 1 ensures Issues(w, c[i + 1], c[i]) == Yes {
        if i < |c| - 2 {
          assert Issues(w, p[i + 1], p[i]) == Yes;
        }
      }
    }
  }

  /** Unless one of its own checks raises, build_chain succeeds exactly when a trusted walk
      exists. */
  lemma BuildChainIff(w: World, leaf: Cert)
    requires BuildChain(w, leaf) != Raised
    ensures BuildChain(w, leaf).Found?
       <==> exists path :: Walk(w, leaf, path) && (IsRoot(w, Last(path)) || Issued(w, Last(path)))
  {
    hide Extend, Issues, IsRoot, Issued;
    assert Walk(w, leaf, [leaf]);
    if BuildChain(w, leaf).Found? {
      BuildChainSound(w, leaf);
      TrustedWalk(w, leaf, BuildChain(w, leaf).chain);
    } else {
      forall path | Walk(w, leaf, path) ensures !(IsRoot(w, Last(path)) || Issued(w, Last(path))) {
        assert [leaf] <= path;
        ExtendComplete(w, leaf, [leaf], path);
      }
    }
  }

  /** The search raises only if some check along a walk from the leaf does. */
  lemma QuietNeverRaises(w: World, leaf: Cert)
    requires Quiet(w, leaf)
    ensures BuildChain(w, leaf) != Raised
  {
    hide Extend, Issues, IsRoot, Issued, Quiet;
    if !IsRoot(w, leaf) {
      ExtendSound(w, leaf, [leaf]);
    }
  }

  lemma TrustedWalk(w: World, leaf: Cert, c: seq<Cert>)
    requires TrustedChain(w, leaf, c)
    ensures exists path :: Walk(w, leaf, path) && (IsRoot(w, Last(path)) || Issued(w, Last(path)))
  {
    if !(Walk(w, leaf, c) && IsRoot(w, Last(c))) {
      var p := c[..|c| - 1];
      var i :| 0 <= i < |w.roots| && w.roots[i] == Last(c);
      assert p != [] && Last(p) == c[|c| - 2];
      assert Issued(w, Last(p));
    }
  }

  // ----- validation

  /** How many CA certificates lie between the leaf and position index. */
  function CasBelow(chain: seq<Cert>, index: nat): nat
    requires 1 <= index <= |chain|
    decreases index
  {
    if index == 1 then 0 else CasBelow(chain, index - 1) + (if chain[index - 1].IsCa() then 1 else 0)
  }

  /** _check_ca. */
  predicate CheckCa(chain: seq<Cert>, index: nat)
    requires 1 <= index < |chain|
  {
    var cert, anchor := chain[index], index == |chain| - 1;
    && (cert.constraints == None ==> anchor)
    && (cert.constraints.Some? ==> cert.constraints.value.ca)
    && LengthAllows(cert, CasBelow(chain, index))
    && (cert.usage.Some? ==> cert.usage.value.keyCertSign)
  }

  predicate LengthAllows(cert: Cert, below: nat)
  {
    cert.constraints.Some? && cert.constraints.value.pathLength.Some? ==> below <= cert.constraints.value.pathLength.value
  }

  /** The checks of validate_chain after a chain is built. */
  predicate Accepts(w: World, chain: seq<Cert>, moment: int)
    requires chain != []
  {
    && (forall i :: 0 <= i < |chain| ==>
          chain[i].notBefore <= moment <= chain[i].notAfter && !chain[i].unenforcedCritical)
    && (!chain[0].IsCa() && chain[0].usage.Some? ==> chain[0].usage.value.digitalSignature)
    && (forall i :: 1 <= i < |chain| ==> CheckCa(chain, i))
    && (Last(chain).SelfIssued() ==> w.verify(Last(chain), Last(chain).key) == Yes)
  }

  /** validate_chain. */
  function ValidateChain(w: World, leaf: Cert, moment: int): Option<seq<Cert>>
  {
    match BuildChain(w, leaf)
    case Missing => None
    case Raised => None
    case Found(chain) => if chain != [] && Accepts(w, chain, moment) then Some(chain) else None
  }

  // ----- the counter of RFC 5280

  /** Steps (l) and (m) over the intermediates from the anchor down to position 1. */
  predicate CounterPasses(chain: seq<Cert>, n: nat, counter: nat)
    requires n < |chain|
    decreases n
  {
    n == 0
    || (var c := chain[n];
        if c.SelfIssued() then CounterPasses(chain, n - 1, Lowered(c, counter))
        else counter > 0 && CounterPasses(chain, n - 1, Lowered(c, counter - 1)))
  }

  /** Step (m): a smaller constraint replaces the counter. */
  function Lowered(c: Cert, counter: nat): nat
  {
    if c.constraints.Some? && c.constraints.value.pathLength.Some? && c.constraints.value.pathLength.value < counter
    then c.constraints.value.pathLength.value else counter
  }

  /** The counter starts at the length of the path, lowered by the anchor's constraint. */
  predicate RfcPathLength(chain: seq<Cert>)
    requires |chain| >= 2
  {
    CounterPasses(chain, |chain| - 2, Lowered(Last(chain), |chain| - 1))
  }

  /** How many certificates between the leaf and position index are not self-issued. */
  function NonSelfIssuedBelow(chain: seq<Cert>, index: nat): (n: nat)
    requires 1 <= index <= |chain|
    ensures n < index
    decreases index
  {
    if index == 1 then 0 else NonSelfIssuedBelow(chain, index - 1) + (if chain[index - 1].SelfIssued() then 0 else 1)
  }

  /** Every constraint up to position n allows the certificates below it that are not
      self-issued. */
  ghost predicate RfcRule(chain: seq<Cert>, n: nat)
    requires n < |chain|
  {
    forall i :: 1 <= i <= n ==> LengthAllows(chain[i], NonSelfIssuedBelow(chain, i))
  }

  /** The running counter passes exactly when it starts high enough and every constraint
      below allows the certificates under it. */
  lemma {:induction false} CounterIff(chain: seq<Cert>, n: nat, counter: nat)
    requires n < |chain|
    ensures CounterPasses(chain, n, counter)
       <==> counter >= NonSelfIssuedBelow(chain, n + 1) && RfcRule(chain, n)
    decreases n
  {
    hide LengthAllows, Lowered, RfcRule, Cert.SelfIssued;
    if n == 0 {
      assert RfcRule(chain, 0) by { NoRule(chain); }
    } else {
      var c := chain[n];
      RfcRuleSplits(chain, n);
      if c.SelfIssued() {
        CounterIff(chain, n - 1, Lowered(c, counter));
        LoweredIff(c, counter, NonSelfIssuedBelow(chain, n));
      } else if counter > 0 {
        CounterIff(chain, n - 1, Lowered(c, counter - 1));
        LoweredIff(c, counter - 1, NonSelfIssuedBelow(chain, n));
      }
    }
  }

  lemma NoRule(chain: seq<Cert>)
    requires chain != []
    ensures RfcRule(chain, 0)
  {}

  lemma LoweredIff(c: Cert, counter: nat, below: nat)
    ensures Lowered(c, counter) >= below <==> counter >= below && LengthAllows(c, below)
  {}

  /** The counter of RFC 5280 bounds exactly the certificates that are not self-issued. */
  lemma RfcPathLengthIff(chain: seq<Cert>)
    requires |chain| >= 2
    ensures RfcPathLength(chain)
       <==> forall i :: 1 <= i < |chain| ==> LengthAllows(chain[i], NonSelfIssuedBelow(chain, i))
  {
    hide LengthAllows, CounterPasses, Lowered, NonSelfIssuedBelow, RfcRule;
    var n := |chain| - 1;
    CounterIff(chain, n - 1, Lowered(chain[n], n));
    LoweredIff(chain[n], n, NonSelfIssuedBelow(chain, n));
    RfcRuleSplits(chain, n);
    RfcRuleWhole(chain);
  }

  lemma RfcRuleSplits(chain: seq<Cert>, n: nat)
    requires 1 <= n < |chain|
    ensures RfcRule(chain, n) <==> RfcRule(chain, n - 1) && LengthAllows(chain[n], NonSelfIssuedBelow(chain, n))
  {
    hide LengthAllows, NonSelfIssuedBelow;
  }

  lemma RfcRuleWhole(chain: seq<Cert>)
    requires chain != []
    ensures RfcRule(chain, |chain| - 1)
       <==> forall i :: 1 <= i < |chain| ==> LengthAllows(chain[i], NonSelfIssuedBelow(chain, i))
  {
    hide LengthAllows, NonSelfIssuedBelow;
  }

  /** The path-length part of _check_ca over a whole chain. */
  ghost predicate SourceRule(chain: seq<Cert>)
  {
    forall i :: 1 <= i < |chain| ==> LengthAllows(chain[i], CasBelow(chain, i))
  }

  /** The path length at position i lies between the two counts. */
  predicate BetweenCounts(chain: seq<Cert>, i: nat)
    requires 1 <= i < |chain|
  {
    && chain[i].constraints.Some? && chain[i].constraints.value.pathLength.Some?
    && NonSelfIssuedBelow(chain, i) <= chain[i].constraints.value.pathLength.value < CasBelow(chain, i)
  }

  lemma {:induction false} CountsOrdered(chain: seq<Cert>, index: nat)
    requires 1 <= index <= |chain| && forall i :: 1 <= i < index ==> chain[i].IsCa()
    ensures NonSelfIssuedBelow(chain, index) <= CasBelow(chain, index) == index - 1
    ensures (forall i :: 1 <= i < index ==> !chain[i].SelfIssued()) ==> NonSelfIssuedBelow(chain, index) == index - 1
    decreases index
  {
    if index > 1 {
      CountsOrdered(chain, index - 1);
    }
  }

  /** When every intermediate is a CA, the source's rule is the stricter one, and the two
      disagree exactly when the counter passes and some path length lies between the counts. */
  lemma PathLengthRules(chain: seq<Cert>)
    requires |chain| >= 2 && forall i :: 1 <= i < |chain| - 1 ==> chain[i].IsCa()
    ensures SourceRule(chain) <==> RfcPathLength(chain) && forall i :: 1 <= i < |chain| ==> !BetweenCounts(chain, i)
    ensures SourceRule(chain) <==> forall i :: 1 <= i < |chain| ==> LengthAllows(chain[i], i - 1)
  {
    hide RfcPathLength, LengthAllows, BetweenCounts, CasBelow, NonSelfIssuedBelow;
    RfcPathLengthIff(chain);
    forall i | 1 <= i < |chain|
      ensures CasBelow(chain, i) == i - 1
      ensures LengthAllows(chain[i], CasBelow(chain, i))
         <==> LengthAllows(chain[i], NonSelfIssuedBelow(chain, i)) && !BetweenCounts(chain, i)
    {
      RulesAt(chain, i);
    }
  }

  lemma RulesAt(chain: seq<Cert>, i: nat)
    requires 1 <= i < |chain| && forall j :: 1 <= j < |chain| - 1 ==> chain[j].IsCa()
    ensures CasBelow(chain, i) == i - 1
    ensures LengthAllows(chain[i], CasBelow(chain, i))
       <==> LengthAllows(chain[i], NonSelfIssuedBelow(chain, i)) && !BetweenCounts(chain, i)
  {
    CountsOrdered(chain, i);
  }

  /** Without self-issued intermediates the two path-length rules agree exactly. */
  lemma PathLengthRulesAgree(chain: seq<Cert>)
    requires |chain| >= 2
    requires forall i :: 1 <= i < |chain| - 1 ==> chain[i].IsCa() && !chain[i].SelfIssued()
    ensures SourceRule(chain) <==> RfcPathLength(chain)
  {
    hide RfcPathLength, SourceRule, CasBelow, NonSelfIssuedBelow;
    PathLengthRules(chain);
    forall i | 1 <= i < |chain| ensures !BetweenCounts(chain, i) {
      CountsOrdered(chain, i);
    }
  }

  // ----- the two rules at validate_chain

  /** The checks of validate_chain other than the path length. */
  ghost predicate AcceptsButLength(w: World, chain: seq<Cert>, moment: int)
    requires chain != []
  {
    && (forall i :: 0 <= i < |chain| ==>
          chain[i].notBefore <= moment <= chain[i].notAfter && !chain[i].unenforcedCritical)
    && (!chain[0].IsCa() && chain[0].usage.Some? ==> chain[0].usage.value.digitalSignature)
    && (forall i :: 1 <= i < |chain| ==>
          && (if chain[i].constraints == None then i == |chain| - 1 else chain[i].constraints.value.ca)
          && (chain[i].usage.Some? ==> chain[i].usage.value.keyCertSign))
    && (Last(chain).SelfIssued() ==> w.verify(Last(chain), Last(chain).key) == Yes)
  }

  lemma AcceptsIff(w: World, chain: seq<Cert>, moment: int)
    requires chain != []
    ensures Accepts(w, chain, moment) <==> AcceptsButLength(w, chain, moment) && SourceRule(chain)
  {
    hide LengthAllows, CasBelow;
    if Accepts(w, chain, moment) {
      forall i | 1 <= i < |chain|
        ensures LengthAllows(chain[i], CasBelow(chain, i))
        ensures if chain[i].constraints == None then i == |chain| - 1 else chain[i].constraints.value.ca
        ensures chain[i].usage.Some? ==> chain[i].usage.value.keyCertSign
      {
        assert CheckCa(chain, i);
      }
    }
    if AcceptsButLength(w, chain, moment) && SourceRule(chain) {
      forall i | 1 <= i < |chain| ensures CheckCa(chain, i) {}
    }
  }

  /** A built chain whose other checks pass is accepted exactly when the counter of RFC 5280
      passes and no path length lies between the two counts. */
  lemma ValidateChainIff(w: World, leaf: Cert, moment: int, chain: seq<Cert>)
    requires BuildChain(w, leaf) == Found(chain) && |chain| >= 2 && AcceptsButLength(w, chain, moment)
    ensures ValidateChain(w, leaf, moment) == Some(chain)
       <==> RfcPathLength(chain) && forall i :: 1 <= i < |chain| ==> !BetweenCounts(chain, i)
  {
    hide BuildChain, RfcPathLength, SourceRule, BetweenCounts, Accepts;
    AcceptsIff(w, chain, moment);
    PathLengthRules(chain);
  }

  /** Every accepted chain also passes the counter of RFC 5280. */
  lemma AcceptedPassesRfc(w: World, leaf: Cert, moment: int)
    requires ValidateChain(w, leaf, moment).Some? && |ValidateChain(w, leaf, moment).value| >= 2
    ensures RfcPathLength(ValidateChain(w, leaf, moment).value)
  {
    hide BuildChain, RfcPathLength, SourceRule, BetweenCounts, Accepts;
    var chain := ValidateChain(w, leaf, moment).value;
    AcceptsIff(w, chain, moment);
    ValidateChainIff(w, leaf, moment, chain);
  }

  // ----- a chain on which they differ

  const LEAF: Cert := Cert(0, 0, 1, 0, None, None, None, None, 0, 0, false)

  /** A self-issued intermediate: the key of entity 1 changes from 2 to 1. */
  const ROLLOVER: Cert := Cert(1, 1, 1, 1, None, None, Some(Constraints(true, None)), None, 0, 0, false)

  /** The root that allows no further intermediate. */
  const ANCHOR: Cert := Cert(2, 1, 1, 2, None, None, Some(Constraints(true, Some(0))), None, 0, 0, false)

  /** Stores in which the root signs itself and the intermediate, which signs the leaf. */
  const ROLLED: World := World([ROLLOVER], [ANCHOR], Signed)

  function Signed(c: Cert, key: nat): Answer
  {
    if (c == LEAF && key == 1) || (c in {ROLLOVER, ANCHOR} && key == 2) then Yes else No
  }

  /** build_chain finds the chain over the self-issued intermediate, the counter of RFC 5280
      passes on it and every other check does, and validate_chain refuses it. */
  lemma SelfIssuedDiffers()
    ensures BuildChain(ROLLED, LEAF) == Found([LEAF, ROLLOVER, ANCHOR])
    ensures RfcPathLength([LEAF, ROLLOVER, ANCHOR]) && AcceptsButLength(ROLLED, [LEAF, ROLLOVER, ANCHOR], 0)
    ensures ValidateChain(ROLLED, LEAF, 0) == None
  {
    var chain := [LEAF, ROLLOVER, ANCHOR];
    assert BuildChain(ROLLED, LEAF) == Found(chain) by {
      RolloverFound();
    }
    assert CounterPasses(chain, 0, 0);
    assert CasBelow(chain, 1) == 0 && CasBelow(chain, 2) == 1;
    assert !CheckCa(chain, 2);
    hide BuildChain;
    assert !Accepts(ROLLED, chain, 0);
  }

  lemma RolloverFound()
    ensures BuildChain(ROLLED, LEAF) == Found([LEAF, ROLLOVER, ANCHOR])
  {
    var w, short := ROLLED, [LEAF, ROLLOVER];
    assert Issues(w, ANCHOR, LEAF) == No && Issues(w, ROLLOVER, LEAF) == Yes && Issues(w, ANCHOR, ROLLOVER) == Yes;
    assert AppendRoot(w, [LEAF], 1) == Missing;
    assert AppendRoot(w, [LEAF], 0) == Missing;
    assert AppendRoot(w, short, 0) == Found(short + [ANCHOR]);
    assert Extend(w, short) == Found(short + [ANCHOR]);
    assert [LEAF] + [ROLLOVER] == short && short + [ANCHOR] == [LEAF, ROLLOVER, ANCHOR];
    assert TryCandidates(w, [LEAF], 0) == Extend(w, short);
  }
}
