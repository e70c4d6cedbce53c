/**
 * The input file of the application: the command line chooses the file (`-f` or `--file`
 * followed by a path, "article.txt" otherwise), and its lines become the word list the
 * graph is built from.  The file system is a map from paths to the lines of the file there.
 */
module Input {
  import opened Wrappers
  import Text

  /** The file read when the command line names none. */
  const DefaultPath: string := "article.txt"

  /** The two spellings of the file option. */
  predicate IsFileFlag(a: string)
  {
    a == "-f" || a == "--file"
  }

  /** The first position from `i` on that holds a file option followed by another argument. */
  function FlagFrom(args: seq<string>, i: nat): (r: Option<nat>)
    requires i <= |args|
    ensures r.Some? ==> i <= r.value && r.value + 1 < |args| && IsFileFlag(args[r.value])
    ensures r.Some? ==> forall j :: i <= j < r.value ==> !IsFileFlag(args[j])
    ensures r.None? ==> forall j :: i <= j < |args| - 1 ==> !IsFileFlag(args[j])
    decreases |args| - i
  {
    if i + 1 >= |args| then None
    else if IsFileFlag(args[i]) then Some(i)
    else FlagFrom(args, i + 1)
  }

  /** The file read_args settles on: the argument after the first file option that has one,
      else the path already chosen, else the default. */
  function ChosenPath(args: seq<string>, prior: Option<string>): string
  {
    match FlagFrom(args, 0)
    case Some(i) => args[i + 1]
    case None => if prior.Some? then prior.value else DefaultPath
  }

  /** A file option with an argument after it, and no such option before it, names the file;
      without any such option the default is read. */
  lemma ChosenPathSpec(args: seq<string>, i: nat)
    requires i + 1 < |args| && IsFileFlag(args[i])
    requires forall j :: 0 <= j < i ==> !IsFileFlag(args[j])
    ensures ChosenPath(args, None) == args[i + 1]
  {
    var r := FlagFrom(args, 0);
    assert r.Some?;
  }

  /** Without a file option followed by an argument the default file is read. */
  lemma ChosenDefault(args: seq<string>)
    requires forall j :: 0 <= j < |args| - 1 ==> !IsFileFlag(args[j])
    ensures ChosenPath(args, None) == DefaultPath
  {
    match FlagFrom(args, 0)
    case None =>
    case Some(i) => assert false;
  }

  /** The words read from a file with the given lines: each line followed by a space, then
      normalised. */
  ghost function WordsOf(lines: seq<string>): seq<string>
  {
    Text.Normalise(Text.Spaced(lines))
  }

  /** The words of a file are lower-case letters, only the first may be empty, and together
      they spell the letters of the file lower-cased. */
  lemma WordsOfFile(lines: seq<string>)
    ensures forall k :: 0 <= k < |WordsOf(lines)| ==> Text.IsLowerWord(WordsOf(lines)[k])
    ensures forall k :: 1 <= k < |WordsOf(lines)| ==> WordsOf(lines)[k] != ""
    ensures Text.Concat(WordsOf(lines)) == Text.Lower(Text.Letters(Text.Spaced(lines)))
  {
    Text.NormaliseTokens(Text.Spaced(lines));
    Text.NormaliseKeepsLetters(Text.Spaced(lines));
  }

  /** read(): the lines are appended to a buffer, each followed by a space, and the buffer
      is normalised into words. */
  method Read(lines: seq<string>) returns (words: seq<string>)
    ensures words == WordsOf(lines)
  {
    var content := "";
    for i := 0 to |lines|
      invariant content == Text.Spaced(lines[..i])
    {
      assert lines[..i + 1][..i] == lines[..i];
      content := content + lines[i] + " ";
    }
    assert lines[..|lines|] == lines;
    words := Text.Normalise(content);
  }

  class InputFile {
    var filePath: Option<string>
    var words: seq<string>

    /** The object as it stands after read_args, before its file is read. */
    constructor (args: seq<string>)
      ensures filePath == Some(ChosenPath(args, None)) && words == []
    {
      filePath := None;
      words := [];
      new;
      ReadArgs(args);
    }

    /** read_args: the argument after the first file option that has one; if none, the
        path stays as it was, or becomes the default when there was none. */
    method ReadArgs(args: seq<string>)
      modifies this
      ensures filePath == Some(ChosenPath(args, old(filePath)))
      ensures words == old(words)
    {
      var i := 0;
      while i < |args|
        invariant 0 <= i <= |args|
        invariant FlagFrom(args, 0) == FlagFrom(args, i)
        invariant filePath == old(filePath) && words == old(words)
      {
        if IsFileFlag(args[i]) && i + 1 < |args| {
          filePath := Some(args[i + 1]);
          break;
        }
        i := i + 1;
      }
      if filePath == None {
        filePath := Some(DefaultPath);
      }
    }

    /** getWords(). */
    function GetWords(): seq<string>
      reads this
    {
      words
    }
  }

  /** new InputFile(args): the file the command line names is read into words, or the
      exception of opening a missing file. */
  method Load(args: seq<string>, files: map<string, seq<string>>) returns (r: Result<InputFile>)
    ensures r.Err? <==> ChosenPath(args, None) !in files
    ensures r.Err? ==> r.error == FileNotFound(ChosenPath(args, None))
    ensures r.Ok? ==> fresh(r.value) && r.value.filePath == Some(ChosenPath(args, None))
    ensures r.Ok? ==> r.value.words == WordsOf(files[ChosenPath(args, None)])
  {
    var f := new InputFile(args);
    var path := f.filePath.value;
    if path !in files {
      return Err(FileNotFound(path));
    }
    var ws := Read(files[path]);
    f.words := ws;
    return Ok(f);
  }
}
