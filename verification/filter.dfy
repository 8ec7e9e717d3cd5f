/** The filtering pass of `filter_ssm_documents`: for each non-blank input line,
    parse it as an SSM document ARN, obtain a client for its region, fetch the
    document and keep the ARN when the document uses an outdated runtime.
    Client creation and the document fetch are oracles passed in as functions. */
module Filter {
  import opened Wrappers
  import opened Sequences
  import opened Text
  import opened Arn
  import opened Documents

  /** Outcome of creating the SSM client for a region: ready, a ClientError or any
      other exception (the ARN is skipped), or missing/partial credentials (the
      whole pass is abandoned). */
  datatype ClientInit = Ready | ClientFailed | CredentialsMissing

  /** What one ARN does to the pass. */
  datatype Disposition = Skipped | Kept | Aborted | Crashed

  predicate Fatal(d: Disposition) {
    d == Aborted || d == Crashed
  }

  /** How the pass ends: the filtered ARNs with the two counters the source logs,
      the credentials abort (`return False`), or the TypeError that escapes the
      runtime test. */
  datatype Outcome =
    | Completed(filtered: seq<string>, processed: nat, found: nat)
    | CredentialsAbort
    | TypeErrorCrash

  /** The ARN names a document the pass reaches: it parses, and both the region
      and the name are non-empty. */
  predicate Addressable(arn: string) {
    ParseArn(arn).Some? && ParseArn(arn).value.region != [] && ParseArn(arn).value.name != []
  }

  /** The ARN belongs in the output: it is addressable, its region's client is
      ready, its content was fetched, and that content uses an outdated runtime. */
  predicate Selected(arn: string, oldRuntimes: seq<string>,
                     init: string -> ClientInit, fetch: (string, string) -> Option<Json>)
  {
    && Addressable(arn)
    && var p := ParseArn(arn).value;
       && init(p.region) == Ready
       && fetch(p.region, p.name).Some?
       && UsesOutdatedRuntime(fetch(p.region, p.name).value, oldRuntimes)
  }

  /** How often `x` belongs in the output of a pass over `arns`: as often as it
      occurs when it is selected, never otherwise. */
  function KeptCount(x: string, arns: seq<string>, oldRuntimes: seq<string>,
                     init: string -> ClientInit, fetch: (string, string) -> Option<Json>): nat
  {
    if Selected(x, oldRuntimes, init, fetch) then multiset(arns)[x] else 0
  }

  /** One iteration of the loop over the ARNs. A parse failure, an empty region or
      name, a failed client, a failed fetch or falsy content skip the ARN; missing
      credentials abort; a non-iterable `mainSteps` crashes. */
  function Dispose(arn: string, oldRuntimes: seq<string>,
                   init: string -> ClientInit, fetch: (string, string) -> Option<Json>): (d: Disposition)
    ensures d == Kept <==> Selected(arn, oldRuntimes, init, fetch)
    ensures d == Aborted <==> Addressable(arn) && init(ParseArn(arn).value.region) == CredentialsMissing
    ensures d == Crashed <==> && Addressable(arn)
                              && var p := ParseArn(arn).value;
                                 && init(p.region) == Ready
                                 && fetch(p.region, p.name).Some?
                                 && MainStepsNotIterable(fetch(p.region, p.name).value)
  {
    match ParseArn(arn)
    case None => Skipped
    case Some(p) =>
      if p.region == [] || p.name == [] then Skipped
      else match init(p.region)
        case CredentialsMissing => Aborted
        case ClientFailed => Skipped
        case Ready =>
          match fetch(p.region, p.name)
          case None => Skipped
          case Some(content) =>
            if !Truthy(content) then
              assert HasOutdatedPythonRuntime(content, oldRuntimes) == Answer(false);
              Skipped
            else match HasOutdatedPythonRuntime(content, oldRuntimes)
              case RaisesTypeError => Crashed
              case Answer(outdated) => if outdated then Kept else Skipped
  }

  /** The decision `Dispose` makes for each ARN, with the oracles fixed: an ARN is
      kept exactly when it is selected, aborts the pass exactly when its region
      lacks credentials, crashes it exactly when its `mainSteps` is not iterable,
      and is skipped otherwise. */
  function Decisions(arns: seq<string>, oldRuntimes: seq<string>,
                     init: string -> ClientInit, fetch: (string, string) -> Option<Json>): (ds: seq<Disposition>)
    ensures |ds| == |arns|
    ensures forall i :: 0 <= i < |arns| ==> (ds[i] == Kept <==> Selected(arns[i], oldRuntimes, init, fetch))
    ensures forall i :: 0 <= i < |arns| ==>
              (ds[i] == Aborted <==> Addressable(arns[i]) && init(ParseArn(arns[i]).value.region) == CredentialsMissing)
    ensures forall i :: 0 <= i < |arns| ==>
              (ds[i] == Crashed <==> && Addressable(arns[i])
                                     && var p := ParseArn(arns[i]).value;
                                        && init(p.region) == Ready
                                        && fetch(p.region, p.name).Some?
                                        && MainStepsNotIterable(fetch(p.region, p.name).value))
  {
    seq(|arns|, i requires 0 <= i < |arns| => Dispose(arns[i], oldRuntimes, init, fetch))
  }

  /** The pass over already-stripped ARNs, as a fold from the front, given the
      decision for each ARN: the first fatal ARN ends it, otherwise every ARN is
      counted and the kept ones are collected in order. */
  function Run(arns: seq<string>, ds: seq<Disposition>): (o: Outcome)
    requires |ds| == |arns|
    ensures o.Completed? ==> o.processed == |arns| && o.found == |o.filtered| <= |arns|
    decreases |arns|
  {
    if |arns| == 0 then Completed([], 0, 0)
    else
      var rest := Run(arns[1..], ds[1..]);
      match ds[0]
      case Aborted => CredentialsAbort
      case Crashed => TypeErrorCrash
      case Skipped =>
        if rest.Completed? then Completed(rest.filtered, rest.processed + 1, rest.found) else rest
      case Kept =>
        if rest.Completed? then Completed([arns[0]] + rest.filtered, rest.processed + 1, rest.found + 1) else rest
  }

  /** The pass completes exactly when no ARN is fatal. */
  lemma {:induction false} RunCompletesIff(arns: seq<string>, ds: seq<Disposition>)
    requires |ds| == |arns|
    ensures Run(arns, ds).Completed? <==> forall i :: 0 <= i < |ds| ==> !Fatal(ds[i])
    decreases |arns|
  {
    if |arns| > 0 {
      RunCompletesIff(arns[1..], ds[1..]);
      assert forall i :: 1 <= i < |ds| ==> ds[i] == ds[1..][i - 1];
    }
  }

  /** Whatever the decisions, a completed pass outputs an order-preserving
      subsequence of its input. */
  lemma {:induction false} RunSubseq(arns: seq<string>, ds: seq<Disposition>)
    requires |ds| == |arns|
    ensures Run(arns, ds).Completed? ==> IsSubseq(Run(arns, ds).filtered, arns)
    decreases |arns|
  {
    if |arns| > 0 && Run(arns, ds).Completed? {
      var a, rest := arns[0], Run(arns[1..], ds[1..]);
      RunSubseq(arns[1..], ds[1..]);
      assert arns == [a] + arns[1..];
      if ds[0] == Kept {
        SubseqCons(a, rest.filtered, arns[1..]);
      } else {
        SubseqSkip(a, rest.filtered, arns[1..]);
      }
    }
  }

  /** A completed pass outputs an order-preserving subsequence of its input. When
      the decision depends on the ARN alone, the output holds every occurrence of
      each kept ARN (duplicates included) and nothing else. */
  lemma {:induction false} RunOutputsKept(arns: seq<string>, ds: seq<Disposition>, decide: string -> Disposition)
    requires |ds| == |arns| && Run(arns, ds).Completed?
    requires forall i :: 0 <= i < |arns| ==> ds[i] == decide(arns[i])
    ensures IsSubseq(Run(arns, ds).filtered, arns)
    ensures forall x :: multiset(Run(arns, ds).filtered)[x]
                        == if decide(x) == Kept then multiset(arns)[x] else 0
    decreases |arns|
  {
    RunSubseq(arns, ds);
    if |arns| > 0 {
      var a := arns[0];
      var rest := Run(arns[1..], ds[1..]);
      assert forall i :: 0 <= i < |arns| - 1 ==> ds[1..][i] == decide(arns[1..][i]) by {
        forall i | 0 <= i < |arns| - 1 ensures ds[1..][i] == decide(arns[1..][i]) {
          assert ds[1..][i] == ds[i + 1] && arns[1..][i] == arns[i + 1];
        }
      }
      RunOutputsKept(arns[1..], ds[1..], decide);
      assert arns == [a] + arns[1..];
      assert multiset(arns) == multiset([a]) + multiset(arns[1..]);
      if ds[0] == Kept {
        assert multiset([a] + rest.filtered) == multiset([a]) + multiset(rest.filtered);
      }
    }
  }

  /** Running two passes back to back: the first one's abort or crash wins,
      otherwise the second one's, otherwise outputs concatenate and counters add. */
  function Chain(first: Outcome, second: Outcome): Outcome {
    if !first.Completed? then first
    else if !second.Completed? then second
    else Completed(first.filtered + second.filtered, first.processed + second.processed,
                   first.found + second.found)
  }

  /** The pass over `xs + ys` is the pass over `xs` followed by the pass over `ys`. */
  lemma {:induction false} RunConcat(xs: seq<string>, dx: seq<Disposition>, ys: seq<string>, dy: seq<Disposition>)
    requires |dx| == |xs| && |dy| == |ys|
    ensures Run(xs + ys, dx + dy) == Chain(Run(xs, dx), Run(ys, dy))
    decreases |xs|
  {
    if xs == [] {
      assert xs + ys == ys && dx + dy == dy;
    } else {
      assert (xs + ys)[0] == xs[0] && (dx + dy)[0] == dx[0];
      assert (xs + ys)[1..] == xs[1..] + ys && (dx + dy)[1..] == dx[1..] + dy;
      RunConcat(xs[1..], dx[1..], ys, dy);
      var rx := Run(xs[1..], dx[1..]);
      var ry := Run(ys, dy);
      if rx.Completed? && ry.Completed? {
        assert [xs[0]] + (rx.filtered + ry.filtered) == ([xs[0]] + rx.filtered) + ry.filtered;
      }
    }
  }

  /** An ARN that is skipped affects nothing but the `processed` counter. */
  lemma {:induction false} SkipAffectsOnlyCount(xs: seq<string>, dx: seq<Disposition>, a: string,
                                               ys: seq<string>, dy: seq<Disposition>)
    requires |dx| == |xs| && |dy| == |ys|
    ensures Run(xs + [a] + ys, dx + [Skipped] + dy) == Bump(Run(xs + ys, dx + dy))
  {
    RunConcat(xs, dx, ys, dy);
    RunConcatSkip(xs, dx, a, ys, dy);
    ChainBump(Run(xs, dx), Run(ys, dy));
  }

  /** The pass with a skipped ARN inserted, split at the insertion point. */
  lemma {:induction false} RunConcatSkip(xs: seq<string>, dx: seq<Disposition>, a: string,
                                         ys: seq<string>, dy: seq<Disposition>)
    requires |dx| == |xs| && |dy| == |ys|
    ensures Run(xs + [a] + ys, dx + [Skipped] + dy) == Chain(Run(xs, dx), Bump(Run(ys, dy)))
  {
    var ay, dsy := [a] + ys, [Skipped] + dy;
    assert Run(ay, dsy) == Bump(Run(ys, dy)) by {
      assert ay[1..] == ys && dsy[1..] == dy;
    }
    assert xs + [a] + ys == xs + ay && dx + [Skipped] + dy == dx + dsy;
    RunConcat(xs, dx, ay, dsy);
  }

  /** A completed outcome with one more ARN counted; a failed one unchanged. It is
      the outcome followed by the pass over a single skipped ARN. */
  function Bump(o: Outcome): (r: Outcome)
    ensures forall a :: r == Chain(o, Run([a], [Skipped]))
  {
    assert forall a :: Run([a], [Skipped]) == Completed([], 1, 0) by {
      forall a ensures Run([a], [Skipped]) == Completed([], 1, 0) {
        assert [a][1..] == [] && [Skipped][1..] == [];
      }
    }
    if o.Completed? then
      assert o.filtered + [] == o.filtered;
      Completed(o.filtered, o.processed + 1, o.found)
    else o
  }

  lemma {:induction false} ChainBump(rx: Outcome, ry: Outcome)
    ensures Chain(rx, Bump(ry)) == Bump(Chain(rx, ry))
  {
  }

  /** The first fatal ARN decides how the pass fails: missing credentials abort it,
      a non-iterable `mainSteps` crashes it, whatever comes after. */
  lemma {:induction false} FirstFatalDecides(arns: seq<string>, ds: seq<Disposition>, i: nat)
    requires |ds| == |arns| && i < |ds| && Fatal(ds[i])
    requires forall j :: 0 <= j < i ==> !Fatal(ds[j])
    ensures Run(arns, ds) == if ds[i] == Aborted then CredentialsAbort else TypeErrorCrash
  {
    assert arns == arns[..i] + arns[i..] && ds == ds[..i] + ds[i..];
    RunConcat(arns[..i], ds[..i], arns[i..], ds[i..]);
    RunCompletesIff(arns[..i], ds[..i]);
    assert forall j :: 0 <= j < i ==> ds[..i][j] == ds[j];
    assert ds[i..][0] == ds[i];
  }

  /** `filter_ssm_documents` once the input file has been read into `lines`:
      strip the lines, drop the blank ones, return at once on an empty list, and
      otherwise walk the ARNs in order. On completion every non-blank line was
      counted, and the output is the subsequence of the ARNs holding every
      occurrence of each selected ARN and nothing else. */
  method FilterDocuments(lines: seq<string>, oldRuntimes: seq<string>,
                         init: string -> ClientInit, fetch: (string, string) -> Option<Json>)
    returns (o: Outcome)
    ensures var arns := StripNonBlank(lines); o == Run(arns, Decisions(arns, oldRuntimes, init, fetch))
    ensures StripNonBlank(lines) == [] ==> o == Completed([], 0, 0)
    ensures o.Completed? ==> o.processed == |StripNonBlank(lines)| && o.found == |o.filtered|
    ensures o.Completed? ==> IsSubseq(o.filtered, StripNonBlank(lines))
    ensures o.Completed? ==> forall x :: multiset(o.filtered)[x] == KeptCount(x, StripNonBlank(lines), oldRuntimes, init, fetch)
  {
    var arns := StripNonBlank(lines);
    if |arns| == 0 {
      return Completed([], 0, 0);
    }
    var ds := Decisions(arns, oldRuntimes, init, fetch);
    o := Walk(arns, ds);
    if o.Completed? {
      PassKeepsSelected(arns, oldRuntimes, init, fetch);
    }
  }

  /** The loop of `filter_ssm_documents` with its `processed_count` and
      `found_count` counters, returning as soon as an ARN is fatal. */
  method Walk(arns: seq<string>, ds: seq<Disposition>) returns (o: Outcome)
    requires |ds| == |arns|
    ensures o == Run(arns, ds)
  {
    var filtered: seq<string> := [];
    var processedCount := 0;
    var foundCount := 0;
    var k := 0;
    while k < |arns|
      invariant k <= |arns|
      invariant Run(arns[..k], ds[..k]) == Completed(filtered, processedCount, foundCount)
    {
      var arn := arns[k];
      processedCount := processedCount + 1;
      RunConcat(arns[..k], ds[..k], [arn], [ds[k]]);
      assert arns[..k + 1] == arns[..k] + [arn] && ds[..k + 1] == ds[..k] + [ds[k]];
      assert [arn][1..] == [] && [ds[k]][1..] == [];
      match ds[k] {
        case Aborted =>
          FirstFatalAfter(arns, ds, k);
          return CredentialsAbort;
        case Crashed =>
          FirstFatalAfter(arns, ds, k);
          return TypeErrorCrash;
        case Skipped =>
        case Kept =>
          filtered := filtered + [arn];
          foundCount := foundCount + 1;
      }
      k := k + 1;
    }
    assert arns[..k] == arns && ds[..k] == ds;
    o := Completed(filtered, processedCount, foundCount);
  }

  /** With the source's per-ARN decision, a completed pass keeps exactly the
      occurrences of the selected ARNs. */
  lemma {:induction false} PassKeepsSelected(arns: seq<string>, oldRuntimes: seq<string>,
                                           init: string -> ClientInit, fetch: (string, string) -> Option<Json>)
    ensures var o := Run(arns, Decisions(arns, oldRuntimes, init, fetch));
            o.Completed? ==>
              && IsSubseq(o.filtered, arns)
              && forall x :: multiset(o.filtered)[x] == KeptCount(x, arns, oldRuntimes, init, fetch)
  {
    if !Run(arns, Decisions(arns, oldRuntimes, init, fetch)).Completed? {
      return;
    }
    var decide := arn => Dispose(arn, oldRuntimes, init, fetch);
    var ds := Decisions(arns, oldRuntimes, init, fetch);
    assert forall i :: 0 <= i < |arns| ==> ds[i] == decide(arns[i]);
    RunOutputsKept(arns, ds, decide);
    forall x ensures decide(x) == Kept <==> Selected(x, oldRuntimes, init, fetch) {
      assert decide(x) == Dispose(x, oldRuntimes, init, fetch);
    }
  }

  /** A fatal ARN after a prefix that completed decides the outcome of the pass. */
  lemma {:induction false} FirstFatalAfter(arns: seq<string>, ds: seq<Disposition>, k: nat)
    requires |ds| == |arns| && k < |arns| && Run(arns[..k], ds[..k]).Completed?
    requires Fatal(ds[k])
    ensures Run(arns, ds) == if ds[k] == Aborted then CredentialsAbort else TypeErrorCrash
  {
    RunCompletesIff(arns[..k], ds[..k]);
    forall j | 0 <= j < k ensures !Fatal(ds[j]) {
      assert ds[..k][j] == ds[j];
    }
    FirstFatalDecides(arns, ds, k);
  }
}
