/** What `new_body` does to the body, the locale hash and the collaborator logs over a whole
    file, proved about the value model `Extraction.Run`. Indices are 0-based; the line at
    index `j` is line number `j + 1`, and `AbortIndex` is the index of the line whose action
    is `next` (the file's length when no line aborts). */
module ExtractionProperties {
  import opened LineText
  import opened Extraction

  /** Concatenation is associative; stated once so the run lemmas need not re-derive it element by element. */
  lemma AppendAssoc<T>(a: seq<T>, b: seq<T>, c: seq<T>)
    ensures (a + b) + c == a + (b + c)
  {
  }

  /** Line number `n` gets an entry in the locale hash during a run from index `i`:
      it is processed before the abort and its action is `replace` or `no-replace`. */
  predicate Written(ds: seq<Decision>, i: nat, n: nat)
    requires i <= |ds|
  {
    i < n <= AbortIndex(ds, i) && ds[n - 1].action != Tag
  }

  /** The calls made to the tagging writer by the lines at indices `i` to `k - 1`. */
  function TagCalls(ds: seq<Decision>, i: nat, k: nat): seq<(Option<string>, nat)>
    requires i <= k <= |ds|
    decreases k - i
  {
    if i == k then []
    else (if ds[i].action == Tag then [(ds[i].proposal.info.entry.path, i + 1)] else []) + TagCalls(ds, i + 1, k)
  }

  /** The line numbers the prompter is asked about during a run from index `i`, the aborting line included. */
  function PromptCalls(ds: seq<Decision>, i: nat): seq<nat>
    requires i <= |ds|
    decreases |ds| - i
  {
    if i == |ds| then []
    else (if ds[i].asked then [i + 1] else []) + (if ds[i].action == Next then [] else PromptCalls(ds, i + 1))
  }

  /** The lines `process_line` appends for the lines at indices `i` to `k - 1`, none of them aborting. */
  function Outputs(ds: seq<Decision>, i: nat, k: nat): (out: seq<string>)
    requires i <= k <= |ds|
    ensures |out| == k - i
    decreases k - i
  {
    if i == k then [] else [OutputLine(ds[i].proposal, ds[i].action)] + Outputs(ds, i + 1, k)
  }

  /** The output for the line at index `j` sits at offset `j - i`. */
  lemma {:induction false} OutputsAt(ds: seq<Decision>, i: nat, k: nat, j: nat)
    requires i <= j < k <= |ds|
    ensures Outputs(ds, i, k)[j - i] == OutputLine(ds[j].proposal, ds[j].action)
    decreases j - i
  {
    if i < j {
      OutputsAt(ds, i + 1, k, j);
    }
  }

  /** The body: the existing lines, one processed line per line before the abort, then every
      line from the abort on, chomped. */
  lemma {:induction false} RunBody(ds: seq<Decision>, lines: seq<string>, acc: Accum, i: nat)
    requires |ds| == |lines| && i <= |lines|
    ensures Run(ds, lines, acc, i).body
      == acc.body + Outputs(ds, i, AbortIndex(ds, i)) + ChompAll(lines[AbortIndex(ds, i)..])
    decreases |lines| - i
  {
    if i < |lines| {
      var s := Apply(acc, ds[i], i + 1);
      if s.outcome == Continue {
        var k := AbortIndex(ds, i + 1);
        assert k == AbortIndex(ds, i);
        RunBody(ds, lines, s.acc, i + 1);
        var o := OutputLine(ds[i].proposal, ds[i].action);
        assert s.acc.body == acc.body + [o];
        assert Outputs(ds, i, k) == [o] + Outputs(ds, i + 1, k);
        AppendAssoc(acc.body, [o], Outputs(ds, i + 1, k));
      } else {
        assert AbortIndex(ds, i) == i;
      }
    }
  }

  /** The locale hash gains an entry for exactly the lines processed before the abort and not tagged. */
  lemma {:induction false} RunLocaleHashKeys(ds: seq<Decision>, lines: seq<string>, acc: Accum, i: nat)
    requires |ds| == |lines| && i <= |lines|
    ensures forall n: nat :: n in Run(ds, lines, acc, i).localeHash <==> n in acc.localeHash || Written(ds, i, n)
    decreases |lines| - i
  {
    if i < |lines| {
      var s := Apply(acc, ds[i], i + 1);
      if s.outcome == Continue {
        assert AbortIndex(ds, i) == AbortIndex(ds, i + 1);
        RunLocaleHashKeys(ds, lines, s.acc, i + 1);
        forall n: nat
          ensures Written(ds, i, n) <==> (n == i + 1 && ds[i].action != Tag) || Written(ds, i + 1, n)
        {
        }
      } else {
        assert AbortIndex(ds, i) == i;
      }
    }
  }

  /** Each entry the run writes holds that line's record (the sentinel for `no-replace`);
      every other entry is as before. */
  lemma {:induction false} RunLocaleHashValues(ds: seq<Decision>, lines: seq<string>, acc: Accum, i: nat)
    requires |ds| == |lines| && i <= |lines|
    ensures var r := Run(ds, lines, acc, i);
      forall n: nat :: Written(ds, i, n) ==>
        n in r.localeHash && r.localeHash[n] == RecordFor(ds[n - 1].proposal, ds[n - 1].action)
    ensures var r := Run(ds, lines, acc, i);
      forall n: nat :: n in acc.localeHash && !Written(ds, i, n) ==>
        n in r.localeHash && r.localeHash[n] == acc.localeHash[n]
    decreases |lines| - i
  {
    if i < |lines| {
      var s := Apply(acc, ds[i], i + 1);
      if s.outcome == Continue {
        assert AbortIndex(ds, i) == AbortIndex(ds, i + 1);
        RunLocaleHashValues(ds, lines, s.acc, i + 1);
        forall n: nat
          ensures Written(ds, i, n) <==> (n == i + 1 && ds[i].action != Tag) || Written(ds, i + 1, n)
        {
        }
      } else {
        assert AbortIndex(ds, i) == i;
      }
    }
  }

  /** The tagging writer receives one call per tagged line processed before the abort, in order. */
  lemma {:induction false} RunTagged(ds: seq<Decision>, lines: seq<string>, acc: Accum, i: nat)
    requires |ds| == |lines| && i <= |lines|
    ensures Run(ds, lines, acc, i).tagged == acc.tagged + TagCalls(ds, i, AbortIndex(ds, i))
    decreases |lines| - i
  {
    if i == |lines| {
      assert acc.tagged + [] == acc.tagged;
    } else {
      var s := Apply(acc, ds[i], i + 1);
      var x := if ds[i].action == Tag then [(ds[i].proposal.info.entry.path, i + 1)] else [];
      if s.outcome == Continue {
        var k := AbortIndex(ds, i + 1);
        assert AbortIndex(ds, i) == k;
        assert s.acc.tagged == acc.tagged + x;
        RunTagged(ds, lines, s.acc, i + 1);
        assert TagCalls(ds, i, k) == x + TagCalls(ds, i + 1, k);
        AppendAssoc(acc.tagged, x, TagCalls(ds, i + 1, k));
      } else {
        assert AbortIndex(ds, i) == i;
        assert acc.tagged + [] == acc.tagged;
      }
    }
  }

  /** The prompter is asked about exactly the lines `PromptCalls` lists, in order. */
  lemma {:induction false} RunPrompted(ds: seq<Decision>, lines: seq<string>, acc: Accum, i: nat)
    requires |ds| == |lines| && i <= |lines|
    ensures Run(ds, lines, acc, i).prompted == acc.prompted + PromptCalls(ds, i)
    decreases |lines| - i
  {
    if i == |lines| {
      assert acc.prompted + [] == acc.prompted;
    } else {
      var s := Apply(acc, ds[i], i + 1);
      var x := if ds[i].asked then [i + 1] else [];
      assert s.acc.prompted == acc.prompted + x;
      if s.outcome == Continue {
        RunPrompted(ds, lines, s.acc, i + 1);
        assert PromptCalls(ds, i) == x + PromptCalls(ds, i + 1);
        AppendAssoc(acc.prompted, x, PromptCalls(ds, i + 1));
      } else {
        assert PromptCalls(ds, i) == x + [];
        assert x + [] == x;
      }
    }
  }

  /** Every line the prompter is asked about is one where it was consulted, and none lies past
      the aborting line: the pass-through tail is never prompted. */
  lemma {:induction false} PromptCallsAsked(ds: seq<Decision>, i: nat)
    requires i <= |ds|
    ensures forall x :: x in PromptCalls(ds, i) ==> i < x <= AbortIndex(ds, i) + 1 && x <= |ds| && ds[x - 1].asked
    decreases |ds| - i
  {
    if i < |ds| && ds[i].action != Next {
      PromptCallsAsked(ds, i + 1);
    }
  }

  /** Lines where the prompter is not consulted make no prompter calls. */
  lemma {:induction false} NoPromptCalls(ds: seq<Decision>, i: nat)
    requires i <= |ds|
    requires forall j :: i <= j < |ds| ==> !ds[j].asked
    ensures PromptCalls(ds, i) == []
    decreases |ds| - i
  {
    if i < |ds| {
      NoPromptCalls(ds, i + 1);
    }
  }

  /** Every call to the tagging writer names the reader's path, and a line whose action is `tag`. */
  lemma {:induction false} TagCallsNamePath(c: Collaborators, ds: seq<Decision>, i: nat, k: nat)
    requires i <= k <= |ds|
    requires forall j :: 0 <= j < |ds| ==> WellFormed(c, ds[j])
    ensures forall t :: t in TagCalls(ds, i, k) ==> t.0 == Some(c.path) && i < t.1 <= k && ds[t.1 - 1].action == Tag
    decreases k - i
  {
    if i < k {
      TagCallsNamePath(c, ds, i + 1, k);
    }
  }

  /** A run with neither `next` nor `tag`: the locale hash has exactly the keys 1..N, the body N
      lines, and the tagging writer is never called. */
  lemma CompleteRunCoverage(ds: seq<Decision>, lines: seq<string>)
    requires |ds| == |lines|
    requires forall j :: 0 <= j < |ds| ==> ds[j].action != Tag && ds[j].action != Next
    ensures var r := Run(ds, lines, Initial, 0);
      && (forall n: nat :: n in r.localeHash <==> 1 <= n <= |lines|)
      && |r.body| == |lines|
      && r.tagged == []
  {
    assert AbortIndex(ds, 0) == |lines|;
    RunLocaleHashKeys(ds, lines, Initial, 0);
    RunLocaleHashValues(ds, lines, Initial, 0);
    RunTagged(ds, lines, Initial, 0);
    NoTagCalls(ds, 0, |ds|);
  }

  /** Lines that are not tagged make no tagging-writer calls. */
  lemma {:induction false} NoTagCalls(ds: seq<Decision>, i: nat, k: nat)
    requires i <= k <= |ds|
    requires forall j :: i <= j < k ==> ds[j].action != Tag
    ensures TagCalls(ds, i, k) == []
    decreases k - i
  {
    if i < k {
      NoTagCalls(ds, i + 1, k);
    }
  }

  /** Without `interactive`, the prompter is never asked, nothing is tagged and no line aborts:
      every line gets its entry (the replacer's record or the sentinel) and its processed text. */
  lemma NonInteractiveRun(c: Collaborators, ds: seq<Decision>, lines: seq<string>)
    requires |ds| == |lines| && !c.interactive
    requires forall j :: 0 <= j < |ds| ==> WellFormed(c, ds[j])
    ensures var r := Run(ds, lines, Initial, 0);
      && r.prompted == []
      && r.tagged == []
      && |r.body| == |lines|
      && (forall n: nat :: n in r.localeHash <==> 1 <= n <= |lines|)
      && (forall n: nat :: 1 <= n <= |lines| ==> r.localeHash[n] == ds[n - 1].proposal.info.entry)
      && (forall j :: 0 <= j < |lines| ==>
            r.body[j] == ds[j].proposal.whitespace + Interpolate(ds[j].proposal.info.textToReplace))
  {
    var r := Run(ds, lines, Initial, 0);
    assert forall j :: 0 <= j < |ds| ==> ds[j].action == ReplaceLine;
    assert AbortIndex(ds, 0) == |lines|;
    CompleteRunCoverage(ds, lines);
    assert r.prompted == [] by {
      RunPrompted(ds, lines, Initial, 0);
      NoPromptCalls(ds, 0);
    }
    RunLocaleHashValues(ds, lines, Initial, 0);
    forall n: nat | 1 <= n <= |lines|
      ensures r.localeHash[n] == ds[n - 1].proposal.info.entry
    {
      assert Written(ds, 0, n);
    }
    RunBody(ds, lines, Initial, 0);
    forall j | 0 <= j < |lines|
      ensures r.body[j] == ds[j].proposal.whitespace + Interpolate(ds[j].proposal.info.textToReplace)
    {
      OutputsAt(ds, 0, |lines|, j);
    }
  }

  /** `next` at index `k`: lines before it are processed, the body still has N lines, lines
      from index `k` on are the original lines chomped, and no entry has a line number past `k`
      (none at or after the aborting line `k + 1`). */
  lemma AbortPassThrough(ds: seq<Decision>, lines: seq<string>)
    requires |ds| == |lines| && AbortIndex(ds, 0) < |lines|
    ensures var r := Run(ds, lines, Initial, 0); var k := AbortIndex(ds, 0);
      && |r.body| == |lines|
      && r.body[k..] == ChompAll(lines[k..])
      && (forall j :: 0 <= j < k ==> r.body[j] == OutputLine(ds[j].proposal, ds[j].action))
      && (forall n :: n in r.localeHash ==> 1 <= n <= k)
  {
    var k := AbortIndex(ds, 0);
    RunBody(ds, lines, Initial, 0);
    RunLocaleHashKeys(ds, lines, Initial, 0);
    forall j | 0 <= j < k
      ensures Run(ds, lines, Initial, 0).body[j] == OutputLine(ds[j].proposal, ds[j].action)
    {
      OutputsAt(ds, 0, k, j);
    }
  }
}
