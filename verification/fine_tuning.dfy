/**
 * The two local transformations of fine_tuning.py: the prompt and completion that
 * `export_to_jsonl` writes for one hackathon, and the label masking inside
 * `prepare_dataset.tokenize`, which hides the prompt tokens from the loss.
 *
 * The database rows arrive as values (`None` is a NULL column); the tokenizer is
 * given as its outputs, the token id arrays and the pad token id.
 */
module FineTuning {
  import opened Wrappers

  /** Both tokenizations are padded and truncated to this many tokens. */
  const MAX_LENGTH := 512

  /** The label value the loss ignores. */
  const IGNORE_INDEX := -100

  const HACKATHON_LABEL := "Hackathon: "
  const DESCRIPTION_LABEL := "\nDescription: "
  const PROJECTS_LABEL := "\nProjects:\n"
  const BULLET := " - "
  const COLON := ": "
  const TAGS_OPEN := " (Tags: "
  const TAG_SEP := ", "
  const TAGS_CLOSE := ")\n"
  const INSTRUCTION := "\nInstruction: Summarize this hackathon in detail.\nResponse:"

  /** A project as `select("title,description,tags")` returns it. */
  datatype ProjectView = ProjectView(title: Option<string>, description: Option<string>, tags: seq<string>)

  // ---------------------------------------------------------------------------
  // The prompt
  // ---------------------------------------------------------------------------

  /** A value in an f-string: a NULL column prints as `None`. */
  function Show(value: Option<string>): string {
    match value
    case None => "None"
    case Some(s) => s
  }

  /** `sep.join(xs)`. */
  function Join(sep: string, xs: seq<string>): string {
    if |xs| == 0 then ""
    else if |xs| == 1 then xs[0]
    else Join(sep, xs[..|xs| - 1]) + sep + xs[|xs| - 1]
  }

  function Header(name: Option<string>, description: Option<string>): string {
    HACKATHON_LABEL + Show(name) + DESCRIPTION_LABEL + Show(description) + PROJECTS_LABEL
  }

  /** The line one project adds to the prompt. */
  function ProjectLine(p: ProjectView): string {
    BULLET + Show(p.title) + COLON + Show(p.description) + TAGS_OPEN + Join(TAG_SEP, p.tags) + TAGS_CLOSE
  }

  /** The project lines, in the order the query returned the projects. */
  function ProjectLines(ps: seq<ProjectView>): string {
    if ps == [] then "" else ProjectLines(ps[..|ps| - 1]) + ProjectLine(ps[|ps| - 1])
  }

  function Prompt(name: Option<string>, description: Option<string>, ps: seq<ProjectView>): string {
    Header(name, description) + ProjectLines(ps) + INSTRUCTION
  }

  /** The `prompt +=` loop of `export_to_jsonl`. */
  method BuildPrompt(name: Option<string>, description: Option<string>, projects: seq<ProjectView>)
    returns (prompt: string)
    ensures prompt == Prompt(name, description, projects)
    ensures |Header(name, description)| + |INSTRUCTION| <= |prompt|
    ensures prompt[..|Header(name, description)|] == Header(name, description)
    ensures prompt[|prompt| - |INSTRUCTION|..] == INSTRUCTION
  {
    prompt := HACKATHON_LABEL + Show(name) + DESCRIPTION_LABEL + Show(description) + PROJECTS_LABEL;
    for i := 0 to |projects|
      invariant prompt == Header(name, description) + ProjectLines(projects[..i])
    {
      var p := projects[i];
      var ptags := Join(TAG_SEP, p.tags);
      var line := BULLET + Show(p.title) + COLON + Show(p.description) + TAGS_OPEN + ptags + TAGS_CLOSE;
      LinesSnoc(projects, i);
      Assoc(Header(name, description), ProjectLines(projects[..i]), line);
      prompt := prompt + line;
    }
    assert projects[..|projects|] == projects;
    prompt := prompt + INSTRUCTION;
    Framed(Header(name, description), ProjectLines(projects), INSTRUCTION);
  }

  /** The lines of the first `i + 1` projects are those of the first `i` and the line of project `i`. */
  lemma LinesSnoc(ps: seq<ProjectView>, i: nat)
    requires i < |ps|
    ensures ProjectLines(ps[..i + 1]) == ProjectLines(ps[..i]) + ProjectLine(ps[i])
  {
    assert ps[..i + 1][..i] == ps[..i];
  }

  lemma Assoc(a: string, b: string, c: string)
    ensures (a + b) + c == a + (b + c)
  {
  }

  lemma Framed(h: string, m: string, z: string)
    ensures |h| + |z| <= |h + m + z|
    ensures (h + m + z)[..|h|] == h
    ensures (h + m + z)[|h + m + z| - |z|..] == z
  {
  }

  lemma {:induction false} ProjectLinesAppend(a: seq<ProjectView>, b: seq<ProjectView>)
    ensures ProjectLines(a + b) == ProjectLines(a) + ProjectLines(b)
  {
    if b == [] {
      assert a + b == a;
    } else {
      var init := b[..|b| - 1];
      assert (a + b)[..|a + b| - 1] == a + init;
      ProjectLinesAppend(a, init);
      Assoc(ProjectLines(a), ProjectLines(init), ProjectLine(b[|b| - 1]));
    }
  }

  /**
   * Project `i` owns the line between the lines of the projects before it and those
   * after it: one line per project, in query order, between the header and the
   * instruction.
   */
  lemma PromptLineOrder(name: Option<string>, description: Option<string>, ps: seq<ProjectView>, i: nat)
    requires i < |ps|
    ensures Prompt(name, description, ps)
         == Header(name, description) + ProjectLines(ps[..i]) + ProjectLine(ps[i]) + ProjectLines(ps[i + 1..]) + INSTRUCTION
  {
    var a, b := ps[..i], ps[i + 1..];
    LinesAround(ps, i);
    Concat5(Header(name, description), ProjectLines(a), ProjectLine(ps[i]), ProjectLines(b), INSTRUCTION);
  }

  lemma Concat5(h: string, a: string, l: string, b: string, z: string)
    ensures h + (a + l + b) + z == h + a + l + b + z
  {
  }

  lemma LinesAround(ps: seq<ProjectView>, i: nat)
    requires i < |ps|
    ensures ProjectLines(ps) == ProjectLines(ps[..i]) + ProjectLine(ps[i]) + ProjectLines(ps[i + 1..])
  {
    LinesSplit(ps, i + 1);
    LinesSnoc(ps, i);
  }

  lemma LinesSplit(ps: seq<ProjectView>, i: nat)
    requires i <= |ps|
    ensures ProjectLines(ps) == ProjectLines(ps[..i]) + ProjectLines(ps[i..])
  {
    assert ps[..i] + ps[i..] == ps;
    LinesOfConcat(ps[..i], ps[i..], ps);
  }

  lemma LinesOfConcat(a: seq<ProjectView>, b: seq<ProjectView>, c: seq<ProjectView>)
    requires a + b == c
    ensures ProjectLines(c) == ProjectLines(a) + ProjectLines(b)
  {
    ProjectLinesAppend(a, b);
  }

  /** No line break in a value as the prompt prints it. */
  predicate OneLine(s: string) {
    '\n' !in s
  }

  predicate OneLineProject(p: ProjectView) {
    OneLine(Show(p.title)) && OneLine(Show(p.description)) && forall t :: t in p.tags ==> OneLine(t)
  }

  lemma {:induction false} JoinOneLine(sep: string, xs: seq<string>)
    requires OneLine(sep) && forall x :: x in xs ==> OneLine(x)
    ensures OneLine(Join(sep, xs))
  {
    if |xs| > 1 {
      var init := xs[..|xs| - 1];
      assert forall x :: x in init ==> x in xs;
      assert xs[|xs| - 1] in xs;
      JoinOneLine(sep, init);
    }
  }

  /** A project's line breaks only at its end. */
  lemma LineBreaks(p: ProjectView)
    requires OneLineProject(p)
    ensures multiset(ProjectLine(p))['\n'] == 1
  {
    JoinOneLine(TAG_SEP, p.tags);
    var body := BULLET + Show(p.title) + COLON + Show(p.description) + TAGS_OPEN + Join(TAG_SEP, p.tags);
    assert OneLine(BULLET) && OneLine(COLON) && OneLine(TAGS_OPEN);
    assert OneLine(body);
    BreakAtEnd(body);
  }

  lemma BreakAtEnd(body: string)
    requires OneLine(body)
    ensures multiset(body + TAGS_CLOSE)['\n'] == 1
  {
    assert multiset(body)['\n'] == 0;
  }

  /**
   * When no printed value holds a line break, the project lines hold exactly one
   * line break per project.
   */
  lemma {:induction false} ProjectLinesBreaks(ps: seq<ProjectView>)
    requires forall p :: p in ps ==> OneLineProject(p)
    ensures multiset(ProjectLines(ps))['\n'] == |ps|
  {
    if ps != [] {
      var init, last := ps[..|ps| - 1], ps[|ps| - 1];
      assert forall p :: p in init ==> p in ps;
      ProjectLinesBreaks(init);
      LineBreaks(last);
    }
  }

  // ---------------------------------------------------------------------------
  // The completion
  // ---------------------------------------------------------------------------

  function Digit(d: nat): char
    requires d < 10
  {
    "0123456789"[d]
  }

  function DigitValue(c: char): nat {
    if '0' <= c <= '9' then c as nat - '0' as nat else 0
  }

  /** `str(n)` for a count. */
  function NatToString(n: nat): string {
    if n < 10 then [Digit(n)] else NatToString(n / 10) + [Digit(n % 10)]
  }

  /**
   * `str(n)` is in canonical decimal form: a non-empty string of the digits 0-9 that
   * starts with '0' only for zero itself.
   */
  lemma {:induction false} NatToStringDigits(n: nat)
    ensures var s := NatToString(n);
      && s != []
      && (forall i :: 0 <= i < |s| ==> '0' <= s[i] <= '9')
      && (s[0] == '0' ==> n == 0)
  {
    var s := NatToString(n);
    if n >= 10 {
      NatToStringDigits(n / 10);
      var init := NatToString(n / 10);
      assert s == init + [Digit(n % 10)];
      assert s[0] == init[0];
    } else {
      assert s == [Digit(n)];
    }
  }

  /** Reads a string of decimal digits back as a number. */
  function ParseNat(s: string): nat {
    if s == [] then 0 else ParseNat(s[..|s| - 1]) * 10 + DigitValue(s[|s| - 1])
  }

  lemma {:induction false} ParseNatToString(n: nat)
    ensures ParseNat(NatToString(n)) == n
  {
    var s := NatToString(n);
    if n < 10 {
      assert s[..0] == [];
    } else {
      assert s[..|s| - 1] == NatToString(n / 10);
      ParseNatToString(n / 10);
    }
  }

  /** The completion: it names the hackathon and states how many projects it has. */
  function Completion(name: Option<string>, projectCount: nat): string {
    "Summary of the hackathon '" + Show(name) + "' with " + NatToString(projectCount) + " projects: ..."
  }

  /** The prompt and completion `export_to_jsonl` writes for one hackathon. */
  method BuildRecord(name: Option<string>, description: Option<string>, projects: seq<ProjectView>)
    returns (prompt: string, completion: string)
    ensures prompt == Prompt(name, description, projects)
    ensures completion == Completion(name, |projects|)
  {
    prompt := BuildPrompt(name, description, projects);
    completion := "Summary of the hackathon '" + Show(name) + "' with " + NatToString(|projects|) + " projects: ...";
  }

  /** The count can be read back from the completion: two completions for one name agree only on equal counts. */
  lemma CompletionCount(name: Option<string>, n: nat, m: nat)
    requires Completion(name, n) == Completion(name, m)
    ensures n == m
  {
    var head := "Summary of the hackathon '" + Show(name) + "' with ";
    var tail := " projects: ...";
    var a, b := NatToString(n), NatToString(m);
    assert Completion(name, n) == head + a + tail;
    assert Completion(name, m) == head + b + tail;
    assert |a| == |b|;
    assert a == Completion(name, n)[|head|..|head| + |a|];
    assert b == Completion(name, m)[|head|..|head| + |b|];
    ParseNatToString(n);
    ParseNatToString(m);
  }

  // ---------------------------------------------------------------------------
  // Label masking
  // ---------------------------------------------------------------------------

  /**
   * The labels of one example: the input ids, except `IGNORE_INDEX` at every position
   * where the prompt's tokenization holds a real (non-pad) token.
   */
  function Masked(input: seq<int>, prompt: seq<int>, pad: int): seq<int>
    requires |prompt| <= |input|
  {
    seq(|input|, i requires 0 <= i < |input| =>
      if i < |prompt| && prompt[i] != pad then IGNORE_INDEX else input[i])
  }

  /**
   * `labels = input_ids.copy()` and the `for i, tok in enumerate(prompt_ids)` loop.
   * Both tokenizations are padded to `MAX_LENGTH`, so the prompt is never longer.
   */
  method MaskLabels(inputIds: array<int>, promptIds: array<int>, pad: int) returns (labels: array<int>)
    requires promptIds.Length <= inputIds.Length
    ensures labels != inputIds && labels != promptIds
    ensures labels.Length == inputIds.Length
    ensures forall i :: 0 <= i < labels.Length ==>
      labels[i] == if i < promptIds.Length && promptIds[i] != pad then IGNORE_INDEX else inputIds[i]
    ensures labels[..] == Masked(inputIds[..], promptIds[..], pad)
  {
    labels := new int[inputIds.Length](i requires 0 <= i < inputIds.Length reads inputIds => inputIds[i]);
    for i := 0 to promptIds.Length
      invariant forall j :: 0 <= j < labels.Length ==>
        labels[j] == if j < i && promptIds[j] != pad then IGNORE_INDEX else inputIds[j]
    {
      if promptIds[i] != pad {
        labels[i] := IGNORE_INDEX;
      }
    }
  }

  /**
   * With a prompt of `k` real tokens followed by padding, the labels are `k` ignored
   * positions followed by the input ids from position `k` on: the loss sees only
   * what follows the prompt.
   */
  lemma MaskedPaddedPrompt(input: seq<int>, prompt: seq<int>, pad: int, k: nat)
    requires |prompt| <= |input| && k <= |prompt|
    requires forall i :: 0 <= i < k ==> prompt[i] != pad
    requires forall i :: k <= i < |prompt| ==> prompt[i] == pad
    ensures Masked(input, prompt, pad) == seq(k, _ => IGNORE_INDEX) + input[k..]
  {
    var r := Masked(input, prompt, pad);
    var e := seq(k, _ => IGNORE_INDEX) + input[k..];
    assert |r| == |e|;
    forall i | 0 <= i < |r| ensures r[i] == e[i] {
      if i >= k {
        assert e[i] == input[i];
      }
    }
  }

  /** Masking twice with the same prompt is masking once. */
  lemma MaskedIdempotent(input: seq<int>, prompt: seq<int>, pad: int)
    requires |prompt| <= |input|
    ensures Masked(Masked(input, prompt, pad), prompt, pad) == Masked(input, prompt, pad)
  {
    var r := Masked(input, prompt, pad);
    assert forall i :: 0 <= i < |r| ==> Masked(r, prompt, pad)[i] == r[i];
  }
}
