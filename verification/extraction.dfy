/** The per-line extraction pipeline of `Haml::I18n::Extractor`, as values:
    what one call of `process_line` does to the two accumulators (the rewritten body
    and the locale hash), and what `new_body` does over a whole file. The text finder,
    the text replacer and the user's answers to the prompter are parameters. */
module Extraction {
  import opened LineText

  datatype Option<T> = None | Some(value: T)

  /** The line types of `LINE_TYPES_ALL`, as the text finder reports them. */
  datatype LineType =
    | PlainType | ScriptType | SilentScriptType | HamlCommentType | TagType
    | CommentType | DoctypeType | FilterType | RootType

  /** What the text finder returns for one line: the line type and the matched text (nil when none). */
  datatype FinderResult = FinderResult(lineType: LineType, lineMatch: Option<string>)

  /** One value of the locale hash: the replacement record of a line. */
  datatype LocaleEntry = LocaleEntry(
    modifiedLine: Option<string>,
    keyname: Option<string>,
    replacedText: Option<string>,
    path: Option<string>)

  /** `DEFAULT_LINE_LOCALE_HASH`: the record of a line with no replacement, every field nil. */
  const DefaultLineLocaleHash: LocaleEntry := LocaleEntry(None, None, None, None)

  /** The four verdicts of a `UserAction`: `tag?`, `next?`, `replace_line?`, `no_replace?`. */
  datatype UserAction = Tag | Next | ReplaceLine | NoReplace

  /** Everything the extractor takes from outside for one file:
      the reader's path, the `interactive` option, the text finder (content and line number
      to a result), the text replacer (content, match, line type and line number to its
      replacement hash) and the user's answer to the prompter for a given line. */
  datatype Collaborators = Collaborators(
    path: string,
    interactive: bool,
    finder: (string, nat) -> FinderResult,
    replacer: (string, string, LineType, nat) -> LocaleEntry,
    askUser: (nat, string, Option<string>) -> UserAction)

  /** Ruby string interpolation of a value that may be nil: nil renders as "". */
  function Interpolate(s: Option<string>): string {
    if s.Some? then s.value else ""
  }

  /** The finder's match proposes a replacement: it is neither nil nor empty. */
  predicate HasCandidate(m: Option<string>) {
    m.Some? && m.value != ""
  }

  /** The triple `gather_replacement_info` returns. */
  datatype ReplacementInfo = ReplacementInfo(shouldBeReplaced: bool, textToReplace: Option<string>, entry: LocaleEntry)

  /** `gather_replacement_info`: with a candidate, the replacer's hash with `:path` set to the
      reader's path, and its modified line as the text; otherwise the sentinel and the content. */
  function GatherReplacementInfo(c: Collaborators, content: string, found: FinderResult, lineNo: nat): ReplacementInfo {
    if HasCandidate(found.lineMatch) then
      var h := c.replacer(content, found.lineMatch.value, found.lineType, lineNo).(path := Some(c.path));
      ReplacementInfo(true, h.modifiedLine, h)
    else
      ReplacementInfo(false, Some(content), DefaultLineLocaleHash)
  }

  /** A replacement is proposed exactly when the match is neither nil nor empty, and exactly when
      the record is not the sentinel; a proposed record is the replacer's with the reader's path,
      and its modified line is the text to put in; otherwise the text is the content unchanged. */
  lemma GatherReplacementInfoRecord(c: Collaborators, content: string, found: FinderResult, lineNo: nat)
    ensures var r := GatherReplacementInfo(c, content, found, lineNo);
      && (r.shouldBeReplaced <==> HasCandidate(found.lineMatch))
      && (r.shouldBeReplaced <==> r.entry != DefaultLineLocaleHash)
      && (!r.shouldBeReplaced ==> r.entry == DefaultLineLocaleHash && r.textToReplace == Some(content))
      && (r.shouldBeReplaced ==> r.entry.path == Some(c.path) && r.textToReplace == r.entry.modifiedLine)
      && (r.shouldBeReplaced ==>
            var h := c.replacer(content, found.lineMatch.value, found.lineType, lineNo);
            r.entry.modifiedLine == h.modifiedLine && r.entry.keyname == h.keyname && r.entry.replacedText == h.replacedText)
  {
  }

  /** Steps 1 to 3 of `process_line`: chomp, split the indentation, find, gather. */
  datatype Proposal = Proposal(whitespace: string, content: string, info: ReplacementInfo)

  function Propose(c: Collaborators, origLine: string, lineNo: nat): Proposal {
    var ind := HandleLineWhitespace(Chomp(origLine));
    Proposal(ind.whitespace, ind.content, GatherReplacementInfo(c, ind.content, c.finder(ind.content, lineNo), lineNo))
  }

  /** The prompter is asked exactly when a replacement is proposed and the extractor is interactive. */
  predicate Consulted(c: Collaborators, p: Proposal) {
    p.info.shouldBeReplaced && c.interactive
  }

  /** The user action of `process_line`: the default `'y'` unless the prompter is asked. */
  function ResolveAction(c: Collaborators, p: Proposal, lineNo: nat): UserAction {
    if Consulted(c, p) then c.askUser(lineNo, p.content, p.info.textToReplace) else ReplaceLine
  }

  /** Everything `process_line` decides about one line before it touches the accumulators:
      the proposal, whether the prompter was asked, and the resulting action. */
  datatype Decision = Decision(proposal: Proposal, asked: bool, action: UserAction)

  /** A decision `process_line` can take for a line under the collaborators `c`: the prompter
      is asked exactly when a replacement is proposed and the extractor is interactive; any
      action but the default `'y'` comes from the prompter; a proposed record carries the
      reader's path; without a proposal the record is the sentinel and the text the content. */
  predicate WellFormed(c: Collaborators, d: Decision) {
    && d.asked == (d.proposal.info.shouldBeReplaced && c.interactive)
    && (d.action != ReplaceLine ==> d.asked)
    && (d.proposal.info.shouldBeReplaced ==> d.proposal.info.entry.path == Some(c.path))
    && (!d.proposal.info.shouldBeReplaced ==>
          d.proposal.info.entry == DefaultLineLocaleHash && d.proposal.info.textToReplace == Some(d.proposal.content))
  }

  /** Steps 1 to 4 of `process_line(orig_line, line_no)`. */
  function Decide(c: Collaborators, origLine: string, lineNo: nat): Decision {
    var p := Propose(c, origLine, lineNo);
    Decision(p, Consulted(c, p), ResolveAction(c, p, lineNo))
  }

  /** Every decision `process_line` takes is well formed; it proposes a replacement exactly when
      the finder's match on the line's content is neither nil nor empty; without the prompter
      the action is the default `'y'`; when the prompter is asked, the action is its answer for
      this line, its content and its text to replace, so any action but `'y'` is an answer. */
  lemma DecideWellFormed(c: Collaborators, origLine: string, lineNo: nat)
    ensures WellFormed(c, Decide(c, origLine, lineNo))
    ensures var d := Decide(c, origLine, lineNo);
      && (d.proposal.info.shouldBeReplaced <==> HasCandidate(c.finder(d.proposal.content, lineNo).lineMatch))
      && (!d.asked ==> d.action == ReplaceLine)
      && (d.asked ==> d.action == c.askUser(lineNo, d.proposal.content, d.proposal.info.textToReplace))
      && (d.action != ReplaceLine ==> d.action == c.askUser(lineNo, d.proposal.content, d.proposal.info.textToReplace))
  {
    var ind := HandleLineWhitespace(Chomp(origLine));
    GatherReplacementInfoRecord(c, ind.content, c.finder(ind.content, lineNo), lineNo);
  }

  /** The line `process_line` appends to the body for an action other than `next`. */
  function OutputLine(p: Proposal, a: UserAction): string {
    if a == ReplaceLine then p.whitespace + Interpolate(p.info.textToReplace) else p.whitespace + p.content
  }

  /** The record `process_line` stores in the locale hash for `replace` and `no-replace`. */
  function RecordFor(p: Proposal, a: UserAction): LocaleEntry {
    if a == ReplaceLine then p.info.entry else DefaultLineLocaleHash
  }

  /** The extractor's accumulated state: the body, the locale hash, and the logs of the calls
      made to the tagging writer (path, line number) and to the prompter (line number). */
  datatype Accum = Accum(
    body: seq<string>,
    localeHash: map<nat, LocaleEntry>,
    tagged: seq<(Option<string>, nat)>,
    prompted: seq<nat>)

  /** The state of a freshly constructed extractor. */
  const Initial: Accum := Accum([], map[], [], [])

  /** `AbortFile` as a value: processing goes on, or the rest of the file passes through. */
  datatype Outcome = Continue | Abort

  datatype StepResult = StepResult(acc: Accum, outcome: Outcome, proposed: bool)

  /** Step 5 of `process_line`: the effect of the decided action on the accumulators. */
  function Apply(acc: Accum, d: Decision, lineNo: nat): (r: StepResult)
    ensures r.proposed == d.proposal.info.shouldBeReplaced
    ensures r.acc.prompted == acc.prompted + (if d.asked then [lineNo] else [])
    ensures r.outcome == Abort <==> d.action == Next
    ensures d.action == Next ==> r.acc.body == acc.body && r.acc.localeHash == acc.localeHash && r.acc.tagged == acc.tagged
    ensures d.action != Next ==> r.acc.body == acc.body + [OutputLine(d.proposal, d.action)]
    ensures d.action == Tag ==>
      r.acc.localeHash == acc.localeHash && r.acc.tagged == acc.tagged + [(d.proposal.info.entry.path, lineNo)]
    ensures d.action == ReplaceLine || d.action == NoReplace ==>
      r.acc.tagged == acc.tagged && r.acc.localeHash == acc.localeHash[lineNo := RecordFor(d.proposal, d.action)]
  {
    var asked := acc.(prompted := acc.prompted + if d.asked then [lineNo] else []);
    match d.action
    case Tag =>
      StepResult(asked.(tagged := asked.tagged + [(d.proposal.info.entry.path, lineNo)],
                        body := asked.body + [OutputLine(d.proposal, d.action)]),
                 Continue, d.proposal.info.shouldBeReplaced)
    case Next =>
      StepResult(asked, Abort, d.proposal.info.shouldBeReplaced)
    case _ =>
      StepResult(asked.(localeHash := asked.localeHash[lineNo := RecordFor(d.proposal, d.action)],
                        body := asked.body + [OutputLine(d.proposal, d.action)]),
                 Continue, d.proposal.info.shouldBeReplaced)
  }

  /** One call of `process_line(orig_line, line_no)` on the state `acc`. */
  function Step(c: Collaborators, acc: Accum, origLine: string, lineNo: nat): StepResult {
    Apply(acc, Decide(c, origLine, lineNo), lineNo)
  }

  /** What one call of `process_line` does, action by action: `tag` notifies the tagging writer
      with the reader's path and keeps the line; `next` aborts and changes nothing; `replace`
      and `no-replace` set exactly the entry of this line and append one line. Without a
      proposal the default `'y'` has the effect of `no-replace`; the result says whether a
      replacement was proposed, whatever was done with it. */
  lemma ProcessLineEffects(c: Collaborators, acc: Accum, origLine: string, lineNo: nat)
    ensures var p := Propose(c, origLine, lineNo);
      && Step(c, acc, origLine, lineNo).proposed == HasCandidate(c.finder(p.content, lineNo).lineMatch)
      && Step(c, acc, origLine, lineNo).acc.prompted == acc.prompted + (if Consulted(c, p) then [lineNo] else [])
    ensures var p := Propose(c, origLine, lineNo); var a := ResolveAction(c, p, lineNo);
      && (a == Tag ==>
            && Step(c, acc, origLine, lineNo).outcome == Continue
            && Step(c, acc, origLine, lineNo).acc.tagged == acc.tagged + [(Some(c.path), lineNo)]
            && Step(c, acc, origLine, lineNo).acc.body == acc.body + [p.whitespace + p.content]
            && Step(c, acc, origLine, lineNo).acc.localeHash == acc.localeHash)
      && (a == Next ==>
            && Step(c, acc, origLine, lineNo).outcome == Abort
            && Step(c, acc, origLine, lineNo).acc.tagged == acc.tagged && Step(c, acc, origLine, lineNo).acc.body == acc.body && Step(c, acc, origLine, lineNo).acc.localeHash == acc.localeHash)
      && (a == ReplaceLine ==>
            && Step(c, acc, origLine, lineNo).outcome == Continue
            && Step(c, acc, origLine, lineNo).acc.tagged == acc.tagged
            && Step(c, acc, origLine, lineNo).acc.body == acc.body + [p.whitespace + Interpolate(p.info.textToReplace)]
            && Step(c, acc, origLine, lineNo).acc.localeHash == acc.localeHash[lineNo := p.info.entry])
      && (a == NoReplace ==>
            && Step(c, acc, origLine, lineNo).outcome == Continue
            && Step(c, acc, origLine, lineNo).acc.tagged == acc.tagged
            && Step(c, acc, origLine, lineNo).acc.body == acc.body + [p.whitespace + p.content]
            && Step(c, acc, origLine, lineNo).acc.localeHash == acc.localeHash[lineNo := DefaultLineLocaleHash])
    ensures var p := Propose(c, origLine, lineNo);
      !HasCandidate(c.finder(p.content, lineNo).lineMatch) ==>
        && Step(c, acc, origLine, lineNo).outcome == Continue
        && Step(c, acc, origLine, lineNo).acc.tagged == acc.tagged
        && Step(c, acc, origLine, lineNo).acc.body == acc.body + [p.whitespace + p.content]
        && Step(c, acc, origLine, lineNo).acc.localeHash == acc.localeHash[lineNo := DefaultLineLocaleHash]
  {
    DecideWellFormed(c, origLine, lineNo);
  }

  /** The decisions `process_line` takes for each line of a file, line `j + 1` at index `j`. */
  function Decisions(c: Collaborators, lines: seq<string>): (ds: seq<Decision>)
    ensures |ds| == |lines|
  {
    seq(|lines|, j requires 0 <= j < |lines| => Decide(c, lines[j], j + 1))
  }

  /** `chomp` applied to every line, as `add_rest_of_file_to_body` does. */
  function ChompAll(ls: seq<string>): (r: seq<string>)
    ensures |r| == |ls|
    ensures forall i :: 0 <= i < |ls| ==> r[i] == Chomp(ls[i])
  {
    seq(|ls|, i requires 0 <= i < |ls| => Chomp(ls[i]))
  }

  /** What `new_body` leaves in the accumulators, processing `lines[i..]` from line number `i + 1`
      with the decisions `ds`: each line goes through `process_line` until one aborts; that line
      and all after it are then appended chomped and unchanged. */
  function Run(ds: seq<Decision>, lines: seq<string>, acc: Accum, i: nat): (r: Accum)
    requires |ds| == |lines| && i <= |lines|
    ensures |r.body| == |acc.body| + |lines| - i
    decreases |lines| - i
  {
    if i == |lines| then acc
    else
      var s := Apply(acc, ds[i], i + 1);
      if s.outcome == Abort then s.acc.(body := s.acc.body + ChompAll(lines[i..]))
      else Run(ds, lines, s.acc, i + 1)
  }

  /** One turn of `new_body`'s loop on line `lineNo`: after a `process_line` that goes on, the
      rest of the run is the run from the next line; after one that aborts, the run is the
      state so far with the rest of the file appended chomped. */
  lemma RunUnfold(c: Collaborators, lines: seq<string>, acc: Accum, lineNo: nat)
    requires 1 <= lineNo <= |lines|
    ensures var s := Step(c, acc, lines[lineNo - 1], lineNo); var ds := Decisions(c, lines);
      && (s.outcome == Continue ==>
            Run(ds, lines, s.acc, lineNo) == Run(ds, lines, acc, lineNo - 1)
            && AbortIndex(ds, lineNo) == AbortIndex(ds, lineNo - 1))
      && (s.outcome == Abort ==>
            Run(ds, lines, acc, lineNo - 1) == s.acc.(body := s.acc.body + ChompAll(lines[lineNo - 1..]))
            && AbortIndex(ds, lineNo - 1) == lineNo - 1)
  {
  }

  /** The index of the first decision at or after `i` whose action is `next`, or `|ds|` when none is. */
  function AbortIndex(ds: seq<Decision>, i: nat): (k: nat)
    requires i <= |ds|
    ensures i <= k <= |ds|
    ensures forall j :: i <= j < k ==> ds[j].action != Next
    ensures k < |ds| ==> ds[k].action == Next
    decreases |ds| - i
  {
    if i == |ds| || ds[i].action == Next then i else AbortIndex(ds, i + 1)
  }
}
