/**
  The mock terminal: an append-only list of output lines and an input field.
  Enter on a non-blank input echoes the command, prints a fixed success line
  and a blank line, and clears the input. Each output line is coloured by the
  first of four tests that it passes.
 */
module Terminal {
  import opened Text

  datatype Console = Console(history: seq<string>, input: string)

  /** The transcript the terminal opens with. */
  const InitialHistory: seq<string> := [
    "npm install",
    "added 274 packages in 10s",
    "",
    "65 packages are looking for funding",
    "  run `npm fund` for details",
    "",
    "~/project 9s"
  ]

  const Initial: Console := Console(InitialHistory, "")

  /** The line printed after every accepted command. */
  const SuccessLine: string := "\U{2713} Command executed successfully"

  /** The three lines an accepted command adds: the echo of the raw input, the success line, a blank line. */
  function CommandBlock(command: string): (b: seq<string>)
    ensures |b| == 3 && b[0] == "$ " + command && b[1] == SuccessLine && b[2] == ""
  {
    ["$ " + command, SuccessLine, ""]
  }

  /** `handleCommand`: only Enter on an input that is not blank after trimming is processed. */
  function HandleCommand(t: Console, key: string): (r: Console)
    ensures key == "Enter" && !Blank(t.input) ==>
              && |r.history| == |t.history| + 3
              && r.history[..|t.history|] == t.history
              && r.history[|t.history|..] == CommandBlock(t.input)
              && r.input == ""
    ensures key != "Enter" || Blank(t.input) ==> r == t
  {
    TrimEmptyIffBlank(t.input);
    if key == "Enter" && Trim(t.input) != [] then Console(t.history + CommandBlock(t.input), "")
    else t
  }

  /** The terminal's input `onChange`. */
  function Edit(t: Console, text: string): (r: Console)
    ensures r.history == t.history && r.input == text
  {
    t.(input := text)
  }

  /** The colour classes of an output line. */
  datatype LineClass = Prompt | Success | Npm | Plain

  /** The first test a line passes decides its class: a leading "$", a leading check mark, an "npm" anywhere. */
  function Classify(line: string): LineClass {
    if StartsWith(line, "$") then Prompt
    else if StartsWith(line, "\U{2713}") then Success
    else if Includes(line, "npm") then Npm
    else Plain
  }

  /** An echoed command is a prompt line even when it mentions npm: the leading "$" is checked first. */
  lemma EchoIsPrompt(command: string)
    ensures Classify(CommandBlock(command)[0]) == Prompt
    ensures Classify(CommandBlock(command)[1]) == Success
    ensures Classify(CommandBlock(command)[2]) == Plain
    ensures Classify("$ npm install") == Prompt
  {
    assert ("$ " + command)[..1] == "$";
    assert SuccessLine[..1] == "\U{2713}";
  }

  /** The opening transcript has seven lines: the install command, its output, and the prompt. */
  lemma InitialShape()
    ensures |InitialHistory| == 7
    ensures InitialHistory[0] == "npm install" && InitialHistory[4] == "  run `npm fund` for details"
    ensures InitialHistory[2] == "" && InitialHistory[5] == ""
  {
  }

  /** The colouring rule for every line: a leading "$" is a prompt, else a leading check mark is
      success, else the line is yellow exactly when "npm" occurs anywhere in it, and plain otherwise. */
  lemma ClassifyRule(line: string)
    ensures StartsWith(line, "$") ==> Classify(line) == Prompt
    ensures !StartsWith(line, "$") && StartsWith(line, "\U{2713}") ==> Classify(line) == Success
    ensures !StartsWith(line, "$") && !StartsWith(line, "\U{2713}") ==>
              (Classify(line) == Npm <==> exists i :: OccursAt(line, "npm", i))
    ensures !StartsWith(line, "$") && !StartsWith(line, "\U{2713}") && !(exists i :: OccursAt(line, "npm", i)) ==>
              Classify(line) == Plain
  {
    IncludesIffOccurs(line, "npm");
  }

  /** A non-empty line that starts with neither "$" nor a check mark and has no "m" is plain. */
  lemma PlainLine(line: string)
    requires |line| > 0 && line[0] != '$' && line[0] != '\U{2713}' && 'm' !in line
    ensures Classify(line) == Plain
  {
    assert line[..1][0] == line[0];
    assert "npm"[2] == 'm';
    MissingCharNotIncluded(line, "npm", 'm');
  }

  /** A non-empty line that starts with neither "$" nor a check mark and has "npm" at `i` is yellow. */
  lemma NpmLine(line: string, i: nat)
    requires |line| > 0 && line[0] != '$' && line[0] != '\U{2713}'
    requires i + 3 <= |line| && line[i] == 'n' && line[i + 1] == 'p' && line[i + 2] == 'm'
    ensures Classify(line) == Npm
  {
    assert line[..1][0] == line[0];
    assert line[i..i + 3] == "npm";
    OccursIncluded(line, "npm", i);
  }

  /** The two opening lines that mention npm are yellow. */
  lemma InitialClasses()
    ensures Classify(InitialHistory[0]) == Npm
    ensures Classify(InitialHistory[4]) == Npm
  {
    NpmLine(InitialHistory[0], 0);
    NpmLine(InitialHistory[4], 7);
  }

  /** Three opening lines have no "m", so they cannot mention npm. */
  lemma OpeningLinesLackM()
    ensures 'm' !in InitialHistory[1] && 'm' !in InitialHistory[3] && 'm' !in InitialHistory[6]
  {
  }

  /** The other five opening lines are plain: none starts with "$" or a check mark, and none has an "m". */
  lemma InitialPlainLines()
    ensures Classify(InitialHistory[1]) == Plain
    ensures Classify(InitialHistory[2]) == Plain && Classify(InitialHistory[5]) == Plain
    ensures Classify(InitialHistory[3]) == Plain
    ensures Classify(InitialHistory[6]) == Plain
  {
    assert InitialHistory[2] == "" && InitialHistory[5] == "";
    OpeningLinesLackM();
    PlainLine(InitialHistory[1]);
    PlainLine(InitialHistory[3]);
    PlainLine(InitialHistory[6]);
  }

  /** A list of lines made of whole command blocks. */
  predicate Blocks(h: seq<string>)
    decreases |h|
  {
    |h| == 0 || (|h| >= 3 && StartsWith(h[0], "$ ") && h[..3] == CommandBlock(h[0][2..])
                 && !Blank(h[0][2..]) && Blocks(h[3..]))
  }

  /** Appending one more block to whole blocks gives whole blocks. */
  lemma {:induction false} BlocksAppend(h: seq<string>, command: string)
    requires Blocks(h) && !Blank(command)
    ensures Blocks(h + CommandBlock(command))
    decreases |h|
  {
    var b := CommandBlock(command);
    assert b[0][2..] == command;
    if |h| == 0 {
      assert h + b == b;
      assert b[3..] == [];
    } else {
      assert (h + b)[..3] == h[..3];
      assert (h + b)[3..] == h[3..] + b;
      BlocksAppend(h[3..], command);
    }
  }

  /** A terminal event: typing, or a key press in the input. */
  datatype Event = Type(text: string) | Key(key: string)

  function Step(t: Console, e: Event): Console {
    match e
    case Type(text) => Edit(t, text)
    case Key(key) => HandleCommand(t, key)
  }

  function Run(t: Console, es: seq<Event>): Console
    decreases |es|
  {
    if |es| == 0 then t else Run(Step(t, es[0]), es[1..])
  }

  /** One event keeps the old lines as a prefix and whole blocks after `base`. */
  lemma StepAppendOnly(t: Console, e: Event, base: nat)
    requires base <= |t.history| && Blocks(t.history[base..])
    ensures t.history <= Step(t, e).history && Blocks(Step(t, e).history[base..])
  {
    var h := t.history;
    var h1 := Step(t, e).history;
    if h1 != h {
      assert h1 == h + CommandBlock(t.input) && !Blank(t.input);
      assert h1[base..] == h[base..] + CommandBlock(t.input);
      BlocksAppend(h[base..], t.input);
    }
  }

  /** The history is append-only: whatever happens, the old lines stay as a prefix and
      everything after them is whole command blocks of non-blank commands. */
  lemma {:induction false} RunAppendOnly(t: Console, es: seq<Event>, base: nat)
    requires base <= |t.history| && Blocks(t.history[base..])
    ensures t.history <= Run(t, es).history && Blocks(Run(t, es).history[base..])
    decreases |es|
  {
    if |es| > 0 {
      StepAppendOnly(t, es[0], base);
      RunAppendOnly(Step(t, es[0]), es[1..], base);
    }
  }

  /** From the opening transcript, the seven initial lines stay first and the rest is command blocks. */
  lemma TranscriptShape(es: seq<Event>)
    ensures var r := Run(Initial, es);
            InitialHistory <= r.history && Blocks(r.history[7..]) && (|r.history| - 7) % 3 == 0
  {
    assert InitialHistory[7..] == [];
    RunAppendOnly(Initial, es, 7);
    BlocksLength(Run(Initial, es).history[7..]);
  }

  /** Whole blocks come in threes. */
  lemma {:induction false} BlocksLength(h: seq<string>)
    requires Blocks(h)
    ensures |h| % 3 == 0
    decreases |h|
  {
    if |h| > 0 {
      BlocksLength(h[3..]);
    }
  }
}
