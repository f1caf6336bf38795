/** The stateful driver `Haml::I18n::Extractor`: an object that owns the rewritten body and
    the locale hash of one file and fills them line by line. */
module HamlExtractor {
  import opened LineText
  import opened Extraction

  class Extractor {
    /** The reader's path, the `interactive` option and the finder, replacer and prompter. */
    const collaborators: Collaborators
    /** `@haml_reader.lines`: the file's lines as read, line terminators included. */
    const lines: seq<string>

    /** `@body`: the processed lines, only ever appended to. */
    var body: seq<string>
    /** `@locale_hash`: line number to replacement record. */
    var localeHash: map<nat, LocaleEntry>
    /** `@current_line`; 0 stands for the nil it holds before `new_body` runs. */
    var currentLine: nat

    /** The calls made to the tagging writer, as (path, line number). */
    ghost var tagged: seq<(Option<string>, nat)>
    /** The line numbers the prompter was asked about. */
    ghost var prompted: seq<nat>

    /** The accumulators as a value of the model. */
    ghost function State(): Accum
      reads this
    {
      Accum(body, localeHash, tagged, prompted)
    }

    /** `initialize`: empty body and locale hash. */
    constructor (collaborators: Collaborators, lines: seq<string>)
      ensures this.collaborators == collaborators && this.lines == lines
      ensures State() == Initial && currentLine == 0
    {
      this.collaborators := collaborators;
      this.lines := lines;
      body := [];
      localeHash := map[];
      currentLine := 0;
      tagged := [];
      prompted := [];
    }

    /** `add_to_body`: appends one line. */
    method AddToBody(ln: string)
      modifies this
      ensures body == old(body) + [ln]
      ensures localeHash == old(localeHash) && currentLine == old(currentLine)
      ensures tagged == old(tagged) && prompted == old(prompted)
    {
      body := body + [ln];
    }

    /** `append_to_locale_hash`: sets exactly the entry of `lineNo`. */
    method AppendToLocaleHash(lineNo: nat, entry: LocaleEntry)
      modifies this
      ensures localeHash == old(localeHash)[lineNo := entry]
      ensures body == old(body) && currentLine == old(currentLine)
      ensures tagged == old(tagged) && prompted == old(prompted)
    {
      localeHash := localeHash[lineNo := entry];
    }

    /** `process_line(orig_line, line_no)`: returns whether a replacement was proposed, and
        `Abort` where the source raises `AbortFile`. */
    method ProcessLine(origLine: string, lineNo: nat) returns (proposed: bool, outcome: Outcome)
      modifies this
      ensures var r := Step(collaborators, old(State()), origLine, lineNo);
        State() == r.acc && outcome == r.outcome && proposed == r.proposed
      ensures currentLine == old(currentLine)
    {
      var line := Chomp(origLine);
      var split := HandleLineWhitespace(line);
      var whitespace, content := split.whitespace, split.content;
      var found := collaborators.finder(content, lineNo);
      var info := GatherReplacementInfo(collaborators, content, found, lineNo);

      var action := ReplaceLine;  // the default `'y'` when nobody is asked
      if info.shouldBeReplaced {
        if collaborators.interactive {
          action := collaborators.askUser(lineNo, content, info.textToReplace);
          prompted := prompted + [lineNo];
        }
      }

      outcome := Continue;
      if action == Tag {
        tagged := tagged + [(info.entry.path, lineNo)];
        AddToBody(whitespace + content);
      } else if action == Next {
        outcome := Abort;
      } else if action == ReplaceLine {
        AppendToLocaleHash(lineNo, info.entry);
        AddToBody(whitespace + Interpolate(info.textToReplace));
      } else {
        AppendToLocaleHash(lineNo, DefaultLineLocaleHash);
        AddToBody(whitespace + content);
      }
      proposed := info.shouldBeReplaced;
    }

    /** `add_rest_of_file_to_body(line_no)`: appends lines `line_no` to the end, each chomped. */
    method AddRestOfFileToBody(lineNo: nat)
      requires 1 <= lineNo <= |lines| + 1
      modifies this
      ensures body == old(body) + ChompAll(lines[lineNo - 1..])
      ensures localeHash == old(localeHash) && currentLine == old(currentLine)
      ensures tagged == old(tagged) && prompted == old(prompted)
    {
      var j := lineNo - 1;
      while j < |lines|
        invariant lineNo - 1 <= j <= |lines|
        invariant body == old(body) + ChompAll(lines[lineNo - 1..j])
        invariant localeHash == old(localeHash) && currentLine == old(currentLine)
        invariant tagged == old(tagged) && prompted == old(prompted)
      {
        assert ChompAll(lines[lineNo - 1..j + 1]) == ChompAll(lines[lineNo - 1..j]) + [Chomp(lines[j])];
        AddToBody(Chomp(lines[j]));
        j := j + 1;
      }
      assert lines[lineNo - 1..j] == lines[lineNo - 1..];
    }

    /** One turn of `new_body`'s loop: `process_line` on line `@current_line`; then either the
        next line becomes current, or, on `AbortFile`, the rest of the file is appended. */
    method ProcessCurrentLine() returns (aborted: bool)
      requires 1 <= currentLine <= |lines|
      modifies this
      ensures var ds := Decisions(collaborators, lines);
        && (!aborted ==>
              && currentLine == old(currentLine) + 1
              && Run(ds, lines, State(), currentLine - 1) == Run(ds, lines, old(State()), old(currentLine) - 1)
              && AbortIndex(ds, currentLine - 1) == AbortIndex(ds, old(currentLine) - 1))
        && (aborted ==>
              && currentLine == old(currentLine)
              && State() == Run(ds, lines, old(State()), currentLine - 1)
              && AbortIndex(ds, currentLine - 1) == currentLine - 1)
    {
      RunUnfold(collaborators, lines, State(), currentLine);
      var proposed, outcome := ProcessLine(lines[currentLine - 1], currentLine);
      aborted := outcome == Abort;
      if aborted {
        AddRestOfFileToBody(currentLine);
      } else {
        currentLine := currentLine + 1;
      }
    }

    /** `new_body`: processes the lines from line 1; on an abort, appends the rest of the file
        unchanged; returns the body joined with "\n" plus a final "\n". */
    method NewBody() returns (text: string)
      modifies this
      ensures State() == Run(Decisions(collaborators, lines), lines, old(State()), 0)
      ensures currentLine == AbortIndex(Decisions(collaborators, lines), 0) + 1
      ensures text == Join(body, "\n") + "\n"
    {
      currentLine := 1;
      while currentLine <= |lines|
        invariant 1 <= currentLine <= |lines| + 1
        invariant Run(Decisions(collaborators, lines), lines, State(), currentLine - 1)
               == Run(Decisions(collaborators, lines), lines, old(State()), 0)
        invariant AbortIndex(Decisions(collaborators, lines), currentLine - 1) == AbortIndex(Decisions(collaborators, lines), 0)
      {
        var aborted := ProcessCurrentLine();
        if aborted {
          break;
        }
      }
      text := Join(body, "\n") + "\n";
    }
  }
}
