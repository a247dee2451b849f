/**
 * The editor's small rules about names and keystrokes: the file name a
 * new note gets from its first line (`createNewNote`), the title shown
 * for an opened file (`openFile`), what committing an edited title does
 * (`renameCurrentFile`) and the quote and parenthesis pairing in the
 * rule document.
 */
module EditorRules {
  import opened Wrappers
  import opened JsString
  import MainProcess
  import Expansion

  /** The characters `/[^a-z0-9 \-_]/gi` leaves in place. */
  predicate IsTitleChar(c: char) {
    || ('a' <= c <= 'z') || ('A' <= c <= 'Z') || ('0' <= c <= '9')
    || c == ' ' || c == '-' || c == '_'
  }

  /**
   * `s.replace(/[^a-z0-9 \-_]/gi, '')`: every title character is kept,
   * as often as it occurs, and every other character is dropped.
   */
  function KeepTitleChars(s: string): (r: string)
    ensures |r| <= |s|
    ensures forall i :: 0 <= i < |r| ==> IsTitleChar(r[i])
  {
    if |s| == 0 then ""
    else
      var rest := KeepTitleChars(s[1..]);
      if IsTitleChar(s[0]) then [s[0]] + rest else rest
  }

  /** Each title character is kept as often as it occurs; no other character is kept. */
  lemma {:induction false} KeepTitleCharsCounts(s: string)
    ensures forall c :: IsTitleChar(c) ==> multiset(KeepTitleChars(s))[c] == multiset(s)[c]
    ensures forall c :: !IsTitleChar(c) ==> multiset(KeepTitleChars(s))[c] == 0
  {
    if |s| > 0 {
      KeepTitleCharsCounts(s[1..]);
      assert s == [s[0]] + s[1..];
    }
  }

  /** The cleaning works character by character: a title character stays, any other goes. */
  lemma KeepTitleCharsSingle(c: char)
    ensures KeepTitleChars([c]) == if IsTitleChar(c) then [c] else []
  {
    assert [c][1..] == [];
  }

  /** Cleaning a concatenation cleans each part, keeping the kept characters in order. */
  lemma {:induction false} KeepTitleCharsConcat(a: string, b: string)
    ensures KeepTitleChars(a + b) == KeepTitleChars(a) + KeepTitleChars(b)
  {
    if |a| > 0 {
      assert (a + b)[1..] == a[1..] + b;
      KeepTitleCharsConcat(a[1..], b);
    } else {
      assert a + b == b;
    }
  }

  /** A string of title characters is left alone. */
  lemma {:induction false} KeepTitleCharsOfTitle(s: string)
    requires forall i :: 0 <= i < |s| ==> IsTitleChar(s[i])
    ensures KeepTitleChars(s) == s
  {
    if |s| > 0 {
      KeepTitleCharsOfTitle(s[1..]);
    }
  }

  /** The most characters of a note's first line that go into its file name. */
  const MaxTitleLength := 50

  /**
   * The title `createNewNote` takes from a note's first line: the line
   * trimmed, cleaned of everything but title characters and cut to 50
   * characters, or `Untitled` when nothing is left.
   */
  function TitleOf(line: string): (stem: string)
    ensures 1 <= |stem| <= MaxTitleLength
    ensures forall i :: 0 <= i < |stem| ==> IsTitleChar(stem[i])
    ensures KeepTitleChars(Trim(line)) == "" ==> stem == "Untitled"
    ensures KeepTitleChars(Trim(line)) != "" ==>
              && stem <= KeepTitleChars(Trim(line))
              && |stem| == if |KeepTitleChars(Trim(line))| < MaxTitleLength
                           then |KeepTitleChars(Trim(line))| else MaxTitleLength
  {
    var kept := KeepTitleChars(Trim(line));
    var cut := if |kept| > MaxTitleLength then kept[..MaxTitleLength] else kept;
    if cut == "" then "Untitled" else cut
  }

  /** The file name `createNewNote` gives a note whose text is `value`: its title plus `.md`. */
  function NewNoteFilename(value: string): (r: string)
    ensures EndsWith(r, ".md")
    ensures 4 <= |r| <= MaxTitleLength + 3
    ensures forall i :: 0 <= i < |r| - 3 ==> IsTitleChar(r[i])
    ensures r == TitleOf(Split(value, '\n')[0]) + ".md"
  {
    var stem := TitleOf(Split(value, '\n')[0]);
    var r := stem + ".md";
    assert r[..|stem|] == stem;
    r
  }

  /** Only the first line of a note decides its file name. */
  lemma NewNoteFilenameFirstLine(first: string, rest: string)
    requires '\n' !in first
    ensures NewNoteFilename(first + "\n" + rest) == NewNoteFilename(first)
  {
    SplitFirstPiece(first, '\n', rest);
    SplitWhole(first, '\n');
  }

  /**
   * A line that is already a clean title of at most 50 characters
   * (title characters only, no space at either end) is its own title.
   */
  lemma TitleOfTitle(title: string)
    requires 1 <= |title| <= MaxTitleLength
    requires forall i :: 0 <= i < |title| ==> IsTitleChar(title[i])
    requires title[0] != ' ' && title[|title| - 1] != ' '
    ensures TitleOf(title) == title
  {
    assert !IsJsSpace(title[0]) && !IsJsSpace(title[|title| - 1]) by {
      TitleCharIsSpaceOnlyAsSpace(title[0]);
      TitleCharIsSpaceOnlyAsSpace(title[|title| - 1]);
    }
    TrimKeepsClean(title);
    KeepTitleCharsOfTitle(title);
    var kept := KeepTitleChars(Trim(title));
    assert kept == title;
  }

  /** The only title character `trim` removes is the space. */
  lemma TitleCharIsSpaceOnlyAsSpace(c: char)
    requires IsTitleChar(c) && c != ' '
    ensures !IsJsSpace(c)
  {
  }

  /** A clean title on the first line becomes the file name as it is. */
  lemma NewNoteFilenameOfTitle(title: string, rest: string)
    requires 1 <= |title| <= MaxTitleLength
    requires forall i :: 0 <= i < |title| ==> IsTitleChar(title[i])
    requires title[0] != ' ' && title[|title| - 1] != ' '
    ensures NewNoteFilename(title + "\n" + rest) == title + ".md"
  {
    assert '\n' !in title by {
      assert forall i :: 0 <= i < |title| ==> title[i] != '\n';
    }
    NewNoteFilenameFirstLine(title, rest);
    SplitWhole(title, '\n');
    TitleOfTitle(title);
  }

  /**
   * The three steps at work on one line: the spaces around `a.b` are
   * trimmed, the `.` is cleaned away, and the title is `ab`.
   */
  lemma TitleOfExample()
    ensures TitleOf("  a.b ") == "ab"
  {
    assert "  a.b " == "  " + "a.b" + " ";
    TrimPadded("  ", "a.b", " ");
    KeepTitleCharsExample();
  }

  lemma KeepTitleCharsExample()
    ensures KeepTitleChars("a.b") == "ab"
  {
    assert "a.b" == "a." + "b";
    KeepTitleCharsConcat("a.", "b");
    assert "a." == "a" + ".";
    KeepTitleCharsConcat("a", ".");
    KeepTitleCharsSingle('a');
    KeepTitleCharsSingle('.');
    KeepTitleCharsSingle('b');
  }

  /** A line without a single title character gives the title `Untitled`. */
  lemma TitleOfUntitled(line: string)
    requires forall c :: c in Trim(line) ==> !IsTitleChar(c)
    ensures TitleOf(line) == "Untitled"
  {
    var kept := KeepTitleChars(Trim(line));
    KeepTitleCharsCounts(Trim(line));
    forall c | true ensures multiset(kept)[c] == 0 {
      if IsTitleChar(c) {
        assert c !in Trim(line);
      }
    }
    assert multiset(kept) == multiset{};
    assert |kept| == |multiset(kept)|;
  }

  /** `filename.endsWith('.md') ? filename.slice(0, -3) : filename` */
  function StripNoteExtension(name: string): (r: string)
    ensures EndsWith(name, ".md") ==> r + ".md" == name
    ensures !EndsWith(name, ".md") ==> r == name
  {
    if EndsWith(name, ".md") then name[..|name| - 3] else name
  }

  /** The title shown for a note is its file name without `.md`. */
  lemma StripNoteExtensionRoundTrip(stem: string)
    ensures StripNoteExtension(stem + ".md") == stem
  {
    assert EndsWith(stem + ".md", ".md");
  }

  /** A path separator of either platform (`/[\\/]/`). */
  predicate IsPathSeparator(c: char) {
    c == '/' || c == '\\'
  }

  /**
   * `path.split(/[\\/]/).pop()`: the text after the last separator of
   * either kind, or the whole path when it has none.
   */
  function LastSegment(p: string): (r: string)
    ensures EndsWith(p, r)
    ensures forall i :: 0 <= i < |r| ==> !IsPathSeparator(r[i])
    ensures |r| == |p| || IsPathSeparator(p[|p| - |r| - 1])
  {
    var k := LastSeparatorBefore(p, |p|);
    var r := p[k + 1..];
    assert forall i :: 0 <= i < |r| ==> r[i] == p[k + 1 + i];
    r
  }

  /** The last position before `end` holding a separator of either kind, or -1. */
  function LastSeparatorBefore(p: string, end: nat): (k: int)
    requires end <= |p|
    ensures -1 <= k < end
    ensures k >= 0 ==> IsPathSeparator(p[k])
    ensures forall i :: k < i < end ==> !IsPathSeparator(p[i])
  {
    if end == 0 then -1
    else if IsPathSeparator(p[end - 1]) then end - 1
    else LastSeparatorBefore(p, end - 1)
  }

  /** The title shown for a target: files lose a `.md`, folders show their whole name. */
  function ShownTitle(name: string, isFile: bool): string {
    if isFile then StripNoteExtension(name) else name
  }

  /** What committing the title field does. */
  datatype RenameOutcome =
    | NoTarget                                       // no file and no folder selected
    | RestoreTitle(title: string)                    // blank title: the current one is put back
    | KeepName                                       // the title did not change
    | RenameTo(target: string, newName: string, isFile: bool)

  /**
   * `renameCurrentFile()`: the open file, or else the selected folder, is
   * renamed to the trimmed title, with `.md` added back for a note.
   */
  function Rename(currentFile: Option<string>, selectedFolder: Option<string>, typed: string): (o: RenameOutcome)
    ensures o.NoTarget? <==> !Truthy(currentFile) && !Truthy(selectedFolder)
    ensures o.RestoreTitle? <==> (Truthy(currentFile) || Truthy(selectedFolder)) && Trim(typed) == ""
    ensures o.KeepName? <==> && (Truthy(currentFile) || Truthy(selectedFolder))
                             && Trim(typed) != ""
                             && Trim(typed) == ShownTitle(LastSegment(if Truthy(currentFile) then currentFile.value
                                                                      else selectedFolder.value),
                                                          Truthy(currentFile))
    ensures o.RestoreTitle? ==> o.title == ShownTitle(LastSegment(if Truthy(currentFile) then currentFile.value
                                                                  else selectedFolder.value),
                                                      Truthy(currentFile))
    ensures o.RenameTo? ==> o.isFile == Truthy(currentFile)
                            && o.target == (if o.isFile then currentFile.value else selectedFolder.value)
                            && Trim(typed) != ""
                            && Trim(typed) != ShownTitle(LastSegment(o.target), o.isFile)
    ensures o.RenameTo? ==> && (o.newName == Trim(typed) || o.newName == Trim(typed) + ".md")
                            && (EndsWith(Trim(typed), ".md") ==> o.newName == Trim(typed))
                            && (EndsWith(o.newName, ".md")
                                <==> EndsWith(Trim(typed), ".md") || (o.isFile && EndsWith(o.target, ".md")))
  {
    var target := if Truthy(currentFile) then currentFile else selectedFolder;
    if !Truthy(target) then NoTarget
    else
      var isFile := Truthy(currentFile);
      var newName := Trim(typed);
      var shown := ShownTitle(LastSegment(target.value), isFile);
      if newName == "" then RestoreTitle(shown)
      else if newName == shown then KeepName
      else
        var finalName := if isFile && EndsWith(target.value, ".md") && !EndsWith(newName, ".md")
                         then newName + ".md" else newName;
        RenameTo(target.value, finalName, isFile)
  }

  /**
   * Renaming a note to a title without `.md` keeps it a note: the new
   * file name ends in `.md`, and opening it shows exactly the title typed
   * (trimmed).
   */
  lemma RenameKeepsNoteExtension(path: string, folder: Option<string>, typed: string)
    requires path != "" && EndsWith(path, ".md")
    requires Trim(typed) != "" && Trim(typed) != StripNoteExtension(LastSegment(path))
    requires !EndsWith(Trim(typed), ".md")
    ensures Rename(Some(path), folder, typed).RenameTo?
    ensures Rename(Some(path), folder, typed).newName == Trim(typed) + ".md"
    ensures StripNoteExtension(Rename(Some(path), folder, typed).newName) == Trim(typed)
  {
    StripNoteExtensionRoundTrip(Trim(typed));
  }

  /** Committing the title `openFile` put up, unchanged, renames nothing. */
  lemma RenameToShownTitleKeepsName(path: string, folder: Option<string>)
    requires path != ""
    requires StripNoteExtension(LastSegment(path)) != ""
    requires !IsJsSpace(StripNoteExtension(LastSegment(path))[0])
    requires !IsJsSpace(StripNoteExtension(LastSegment(path))[|StripNoteExtension(LastSegment(path))| - 1])
    ensures Rename(Some(path), folder, StripNoteExtension(LastSegment(path))) == KeepName
  {
    TrimKeepsClean(StripNoteExtension(LastSegment(path)));
  }

  /** What a key press in the editor does to its text and selection. */
  datatype PairEdit = NoPair | Paired(content: string, cursor: nat)

  /** The character that closes an opening `"` or `(`. */
  function Closer(open: char): char {
    if open == '"' then '"' else ')'
  }

  /**
   * The key handler of the editor: in the rule document (`.ahk`), typing
   * `"` or `(` replaces the selection `[start, end)` by the pair and puts
   * the cursor between its two characters.
   */
  function AutoPair(path: Option<string>, key: string, value: string, start: nat, end: nat): (e: PairEdit)
    requires start <= end <= |value|
    ensures e.Paired? <==> path.Some? && EndsWith(path.value, ".ahk") && (key == "\"" || key == "(")
    ensures e.Paired? ==> && |e.content| == |value| - (end - start) + 2
                          && e.cursor == start + 1
                          && e.content[..start] == value[..start]
                          && e.content[start] == key[0]
                          && e.content[start + 1] == Closer(key[0])
                          && e.content[start + 2..] == value[end..]
  {
    if !(path.Some? && EndsWith(path.value, ".ahk")) then NoPair
    else if key == "\"" || key == "(" then
      var content := value[..start] + [key[0], Closer(key[0])] + value[end..];
      assert content[start + 2..] == value[end..];
      Paired(content, start + 1)
    else NoPair
  }

  /**
   * Deleting the pair around the cursor leaves the text with the former
   * selection removed: the pairing inserts nothing else.
   */
  lemma UnpairRestores(path: Option<string>, key: string, value: string, start: nat, end: nat)
    requires start <= end <= |value|
    requires AutoPair(path, key, value, start, end).Paired?
    ensures var e := AutoPair(path, key, value, start, end);
            e.content[..e.cursor - 1] + e.content[e.cursor + 1..] == value[..start] + value[end..]
  {
    var e := AutoPair(path, key, value, start, end);
    assert e.content[..e.cursor - 1] == value[..start];
    assert e.content[e.cursor + 1..] == value[end..];
  }

  /** `create-file` keeps the name `createNewNote` asks for: it already ends in `.md`. */
  lemma NewNoteNameSurvivesCreate(value: string)
    ensures MainProcess.WithNoteExtension(NewNoteFilename(value)) == NewNoteFilename(value)
  {
  }

  /**
   * Pairing and expansion never act on the same file: pairing needs an
   * `.ahk` path, expansion an `.md` path.
   */
  lemma PairingExcludesExpansion(path: Option<string>, key: string, value: string, start: nat, end: nat,
                                 ev: Expansion.InputEvent)
    requires start <= end <= |value|
    requires AutoPair(path, key, value, start, end).Paired?
    ensures !Expansion.Fires(path, ev)
  {
    assert path.value[|path.value| - 1] == 'k';
  }
}
