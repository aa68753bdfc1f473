/**
  `load_prompt_from_file` of the shared prompt loader: the text of the
  prompt file without its leading `# ` title line (and one blank line after
  it), stripped; a fixed default prompt when the file is missing or reading
  it fails.
*/
module PromptLoader {
  import opened Text

  const DefaultPrompt: string :=
    "You are a helpful assistant. Answer the user's questions based on the context provided."

  /** What became of the attempt to read the prompt file: it does not exist,
      opening or decoding it raised, or its text was read. */
  datatype PromptFile = Missing | Unreadable | Read(content: string)

  /** Drops a `# ` title line, and then one blank line if one follows it. */
  function DropHeader(lines: seq<string>): seq<string>
    requires |lines| >= 1
  {
    if StartsWith(lines[0], "# ") then
      var rest := lines[1..];
      if |rest| > 0 && Strip(rest[0]) == "" then rest[1..] else rest
    else lines
  }

  /** The transformation applied to the file's text. */
  function StripHeader(content: string): string {
    var lines := Split(content, '\n');
    Strip(Join(DropHeader(lines), '\n'))
  }

  /** `load_prompt_from_file(file_path)`, given what reading the file gave. */
  function LoadPromptFromFile(file: PromptFile): (r: string)
    ensures !file.Read? ==> r == DefaultPrompt
    ensures file.Read? ==> Trimmed(r)
  {
    match file
    case Read(content) =>
      StripFacts(Join(DropHeader(Split(content, '\n')), '\n'));
      StripHeader(content)
    case _ => DefaultPrompt
  }

  /** The first line carries the title exactly when the text starts with one. */
  lemma FirstLineTitle(content: string)
    ensures StartsWith(Split(content, '\n')[0], "# ") <==> StartsWith(content, "# ")
  {
    SplitHead(content, '\n');
    if '\n' in content && StartsWith(content, "# ") {
      var i := IndexOf(content, '\n');
      assert content[0] != '\n' && content[1] != '\n';
      assert i >= 2;
      assert content[..i][..2] == content[..2];
    }
  }

  /** Dropping a blank line in front of the others never changes what
      `strip` makes of them. */
  lemma DroppingBlankLineIsInvisible(rest: seq<string>)
    requires |rest| >= 1 && Strip(rest[0]) == ""
    ensures Strip(Join(rest[1..], '\n')) == Strip(Join(rest, '\n'))
  {
    StripEmptyIff(rest[0]);
    if |rest| == 1 {
      StripEmptyIff("");
    } else {
      var w := rest[0] + "\n";
      assert IsSpace('\n');
      AllSpaceAppend(rest[0], "\n");
      assert Join(rest, '\n') == w + Join(rest[1..], '\n');
      StripDropsLeadingSpace(w, Join(rest[1..], '\n'));
    }
  }

  lemma UntitledText(content: string)
    requires !StartsWith(content, "# ")
    ensures StripHeader(content) == Strip(content)
  {
    FirstLineTitle(content);
    JoinSplit(content, '\n');
  }

  lemma TitleOnlyText(content: string)
    requires StartsWith(content, "# ") && '\n' !in content
    ensures StripHeader(content) == ""
  {
    FirstLineTitle(content);
    assert DropHeader(Split(content, '\n')) == [];
    StripEmptyIff("");
  }

  lemma TitledText(content: string)
    requires StartsWith(content, "# ") && '\n' in content
    ensures StripHeader(content) == Strip(content[IndexOf(content, '\n') + 1..])
  {
    var tail := content[IndexOf(content, '\n') + 1..];
    FirstLineTitle(content);
    SplitHead(content, '\n');
    TitleDropped(Split(content, '\n'), Split(tail, '\n'));
    JoinSplit(tail, '\n');
  }

  /** After a title line, what is left of the lines reads as the lines
      after the title once stripped. */
  lemma TitleDropped(lines: seq<string>, rest: seq<string>)
    requires |lines| >= 1 && StartsWith(lines[0], "# ") && lines[1..] == rest
    ensures Strip(Join(DropHeader(lines), '\n')) == Strip(Join(rest, '\n'))
  {
    if |rest| > 0 && Strip(rest[0]) == "" {
      DroppingBlankLineIsInvisible(rest);
    }
  }

  /** What the loader returns for a file's text, stated on the text itself:
      without a leading `# ` the whole text stripped; with one, everything
      after the first newline stripped (nothing when there is none). Only
      the first line can be taken for a title, and the blank-line drop of
      lines 22-23 is subsumed by the final `strip`. */
  lemma StripHeaderOnText(content: string)
    ensures !StartsWith(content, "# ") ==> StripHeader(content) == Strip(content)
    ensures StartsWith(content, "# ") && '\n' !in content ==> StripHeader(content) == ""
    ensures StartsWith(content, "# ") && '\n' in content ==>
              StripHeader(content) == Strip(content[IndexOf(content, '\n') + 1..])
  {
    if !StartsWith(content, "# ") {
      UntitledText(content);
    } else if '\n' !in content {
      TitleOnlyText(content);
    } else {
      TitledText(content);
    }
  }
}
