/** The certificate whose renewal a failed run was trying last, as far as its output tells. */
module RenewalAttempts {
  import opened ByteStrings
  import opened JobTypes
  import opened OperationResult
  import opened Splitting

  const LINE_FEED: Byte := 10

  /** The certificate that a line of the native log says is being renewed. */
  type Attempt = Bytes -> Option<Bytes>

  /** The line names one of these certificates, whose artifact is as before. */
  predicate TellsOf(attempt: Attempt, line: Bytes, names: seq<Bytes>, changed: set<Bytes>) {
    attempt(line).Some? && attempt(line).value in names && attempt(line).value !in changed
  }

  /** The last line that does so. */
  function LastNamed(attempt: Attempt, lines: seq<Bytes>, names: seq<Bytes>, changed: set<Bytes>): Option<Bytes> {
    if lines == [] then None
    else if TellsOf(attempt, lines[|lines| - 1], names, changed) then attempt(lines[|lines| - 1])
    else LastNamed(attempt, lines[..|lines| - 1], names, changed)
  }

  /** Line i is the last that names such a certificate. */
  predicate IsLast(attempt: Attempt, lines: seq<Bytes>, names: seq<Bytes>, changed: set<Bytes>, i: int) {
    && 0 <= i < |lines| && TellsOf(attempt, lines[i], names, changed)
    && forall j :: i < j < |lines| ==> !TellsOf(attempt, lines[j], names, changed)
  }

  lemma {:induction false} LastNamedIs(attempt: Attempt, lines: seq<Bytes>, names: seq<Bytes>, changed: set<Bytes>) returns (i: int)
    ensures var failed := LastNamed(attempt, lines, names, changed);
            if failed.None? then forall k :: 0 <= k < |lines| ==> !TellsOf(attempt, lines[k], names, changed)
            else IsLast(attempt, lines, names, changed, i) && failed == attempt(lines[i])
  {
    hide TellsOf;
    i := |lines| - 1;
    if lines != [] && !TellsOf(attempt, lines[i], names, changed) {
      i := LastNamedIs(attempt, lines[..|lines| - 1], names, changed);
    } else {
      SomeTells(attempt, lines, names, changed);
    }
  }

  lemma SomeTells(attempt: Attempt, lines: seq<Bytes>, names: seq<Bytes>, changed: set<Bytes>)
    ensures forall i :: 0 <= i < |lines| && TellsOf(attempt, lines[i], names, changed) ==> attempt(lines[i]).Some?
  {
  }

  /** The lines of both streams, a line that the first leaves open being closed. */
  function LinesOf(r: BrokerResult): seq<Bytes> { Split(r.stdout + [LINE_FEED] + r.stderr, LINE_FEED) }

  /** Only a plain failure with all its output and an inventory to compare it with tells anything. */
  predicate Telling(r: BrokerResult, inventory: Inventory) {
    r.outcome == RunFailed && !r.outputDiscarded && inventory.state == Refreshed
  }

  function FailedRenewal(attempt: Attempt, r: BrokerResult, names: seq<Bytes>, changed: set<Bytes>, inventory: Inventory):
    Option<Bytes>
  {
    if Telling(r, inventory) then LastNamed(attempt, LinesOf(r), names, changed) else None
  }

  method FailedRenewalCertificate(attempt: Attempt, r: BrokerResult, names: seq<Bytes>, changed: set<Bytes>, inventory: Inventory)
    returns (failed: Option<Bytes>)
    ensures failed == FailedRenewal(attempt, r, names, changed, inventory)
  {
    if r.outcome != RunFailed || r.outputDiscarded || inventory.state != Refreshed {
      return None;
    }
    var known: set<Bytes> := {};
    for i := 0 to |names|
      invariant known == set n | n in names[..i] && n !in changed
    {
      assert names[..i + 1] == names[..i] + [names[i]];
      if names[i] !in changed {
        known := known + {names[i]};
      }
    }
    assert names[..|names|] == names;
    var lines := Split(r.stdout + [LINE_FEED] + r.stderr, LINE_FEED);
    failed := None;
    for i := 0 to |lines|
      invariant failed == LastNamed(attempt, lines[..i], names, changed)
    {
      assert lines[..i + 1][..i] == lines[..i];
      var name := attempt(lines[i]);
      if name.Some? && name.value in known {
        failed := name;
      }
    }
    assert lines[..|lines|] == lines;
  }

  /** The lines are what stands between line feeds: joined with them they are both streams, and none holds one. */
  lemma LinesAre(r: BrokerResult)
    ensures Join(LinesOf(r), LINE_FEED) == r.stdout + [LINE_FEED] + r.stderr
    ensures forall i :: 0 <= i < |LinesOf(r)| ==> LINE_FEED !in LinesOf(r)[i]
  {
    JoinSplit(r.stdout + [LINE_FEED] + r.stderr, LINE_FEED);
    SplitIsFree(r.stdout + [LINE_FEED] + r.stderr, LINE_FEED);
  }

  /**
   A certificate that was tried is recorded as failed exactly when an otherwise conclusive run failed with all its
   output kept, its artifact is as before, and the last line about such a certificate names this one.
   */
  lemma FailedIff(attempt: Attempt, r: BrokerResult, e: Evidence, result: ExecutorResult, i: nat)
    requires Classified(r, e, result) && i < |e.names|
    requires e.failed == FailedRenewal(attempt, r, e.names, e.changed, e.inventory)
    ensures result.items[i].state == ItemFailed <==>
              && Conclusive(e) && Telling(r, e.inventory) && e.names[i] !in e.changed
              && exists k ::
                   IsLast(attempt, LinesOf(r), e.names, e.changed, k) && attempt(LinesOf(r)[k]) == Some(e.names[i])
  {
    hide Classified, LinesOf, LastNamed, TellsOf;
    ItemStatesMean(r, e, result, i);
    var lines := LinesOf(r);
    var last := LastNamedIs(attempt, lines, e.names, e.changed);
    if k :| IsLast(attempt, lines, e.names, e.changed, k) && attempt(lines[k]) == Some(e.names[i]) {
      assert IsLast(attempt, lines, e.names, e.changed, last);
      assert !(k < last) && !(last < k);
    }
  }
}
