/** LanguageRepository.cs: the translation file of the current culture, a
    list of `key=value` lines. Translate scans it for the first key equal to
    the word (ignoring case); AddDatakey appends `word=word`. The file's
    location (folder, name, culture suffix) is reduced to one object per
    file, whose absence is `lines == None`. */
module Languages {
  import opened Outcomes
  import opened Text
  import opened Sequences

  /** One `key=value` line after splitting and trimming. */
  datatype Entry = Entry(key: string, value: string)

  /** line.TrimStart().StartsWith("#"). */
  predicate IsComment(line: string) {
    var t := TrimStart(line);
    t != [] && t[0] == '#'
  }

  /** What the reader loop makes of one line: blank lines, comments and lines
      without '=' are skipped; otherwise the line is split at its first '='
      and both halves are trimmed. */
  function ParseLine(line: string): (r: Option<Entry>)
    ensures r.None? <==> IsBlank(line) || IsComment(line) || '=' !in line
  {
    if IsBlank(line) || IsComment(line) then None
    else match IndexOf(line, '=')
      case None => None
      case Some(k) => Some(Entry(Trim(line[..k]), Trim(line[k + 1..])))
  }

  /** The line yields an entry whose key is the word, ignoring case. */
  predicate Matches(line: string, word: string) {
    ParseLine(line).Some? && EqualsIgnoreCase(ParseLine(line).value.key, word)
  }

  /** The value of the first matching line, if any. */
  function Lookup(lines: seq<string>, word: string): (r: Option<string>)
    ensures r.Some? ==> exists i :: 0 <= i < |lines| && Matches(lines[i], word) && r.value == ParseLine(lines[i]).value.value
  {
    if lines == [] then None
    else if Matches(lines[0], word) then Some(ParseLine(lines[0]).value.value)
    else Lookup(lines[1..], word)
  }

  /** Nothing is found exactly when no line matches. */
  lemma {:induction false} LookupNone(lines: seq<string>, word: string)
    ensures Lookup(lines, word).None? <==> forall i :: 0 <= i < |lines| ==> !Matches(lines[i], word)
  {
    if lines != [] {
      LookupNone(lines[1..], word);
      assert forall i :: 1 <= i < |lines| ==> lines[i] == lines[1..][i - 1];
    }
  }

  /** Line i is the first line whose key is the word. */
  predicate FirstMatchAt(lines: seq<string>, word: string, i: nat) {
    i < |lines| && Matches(lines[i], word) && forall j :: 0 <= j < i ==> !Matches(lines[j], word)
  }

  /** Some line matches, so a first one does. */
  lemma FirstMatch(lines: seq<string>, word: string, m: nat) returns (i: nat)
    requires m < |lines| && Matches(lines[m], word)
    ensures i <= m && FirstMatchAt(lines, word, i)
  {
    var p := (line: string) => Matches(line, word);
    i := FirstSatisfying(lines, p, m);
    assert forall j :: 0 <= j <= i ==> p(lines[j]) == Matches(lines[j], word);
  }

  /** Nothing is found among lines that do not match. */
  lemma {:induction false} LookupPrefixNone(lines: seq<string>, word: string, i: nat)
    requires i <= |lines| && forall j :: 0 <= j < i ==> !Matches(lines[j], word)
    ensures Lookup(lines[..i], word).None?
  {
    if i > 0 {
      LookupPrefixNone(lines, word, i - 1);
      PrefixGrows(lines, i - 1);
      LookupAppend(lines[..i - 1], [lines[i - 1]], word);
      assert [lines[i - 1]][1..] == [];
    }
  }

  /** A value found comes from the first matching line, whose index is i. */
  lemma LookupFirstIndex(lines: seq<string>, word: string) returns (i: nat)
    requires Lookup(lines, word).Some?
    ensures FirstMatchAt(lines, word, i) && Lookup(lines, word) == Some(ParseLine(lines[i]).value.value)
  {
    LookupNone(lines, word);
    var m :| 0 <= m < |lines| && Matches(lines[m], word);
    i := FirstMatch(lines, word, m);
    LookupPrefixNone(lines, word, i);
    LookupFindsFirst(lines, word, i);
  }

  /** A value found comes from the first matching line. */
  lemma LookupSome(lines: seq<string>, word: string)
    requires Lookup(lines, word).Some?
    ensures exists i: nat :: FirstMatchAt(lines, word, i) && Lookup(lines, word).value == ParseLine(lines[i]).value.value
  {
    var i := LookupFirstIndex(lines, word);
  }

  /** A matching line whose predecessors find nothing supplies the value. */
  lemma LookupFindsFirst(lines: seq<string>, word: string, i: nat)
    requires i < |lines| && Matches(lines[i], word)
    requires Lookup(lines[..i], word).None?
    ensures Lookup(lines, word) == Some(ParseLine(lines[i]).value.value)
  {
    SplitAt(lines, i);
    assert lines[i..][0] == lines[i];
    LookupAppend(lines[..i], lines[i..], word);
  }

  /** The answer of Translate: a missing file gives the word back; a file
      without a matching line raises WordNotFoundException; otherwise the
      value of the first line whose key equals the word, ignoring case. */
  function Translation(file: Option<seq<string>>, word: string): (r: Result<string>)
    ensures file.None? ==> r == Success(word)
    ensures file.Some? ==> (r == Failure(WordNotFound) <==>
                              forall i :: 0 <= i < |file.value| ==> !Matches(file.value[i], word))
    ensures file.Some? ==> r == Failure(WordNotFound) || r.Success?
    ensures file.Some? && r.Success? ==>
              exists i: nat :: FirstMatchAt(file.value, word, i) && r.value == ParseLine(file.value[i]).value.value
  {
    match file
    case None => Success(word)
    case Some(lines) =>
      LookupNone(lines, word);
      match Lookup(lines, word)
      case None => Failure(WordNotFound)
      case Some(value) =>
        LookupSome(lines, word);
        Success(value)
  }

  /** The lines of the file; a missing file reads as empty. */
  function Content(file: Option<seq<string>>): seq<string> {
    if file.None? then [] else file.value
  }

  /** Lines after the first match are never consulted. */
  lemma {:induction false} LookupAppend(lines: seq<string>, more: seq<string>, word: string)
    ensures Lookup(lines + more, word) == if Lookup(lines, word).Some? then Lookup(lines, word) else Lookup(more, word)
  {
    if lines != [] {
      assert (lines + more)[0] == lines[0];
      assert (lines + more)[1..] == lines[1..] + more;
      LookupAppend(lines[1..], more, word);
    } else {
      assert lines + more == more;
    }
  }

  /** A key never holds '=', and never starts with '#': such a line is a
      comment. */
  lemma ParsedKeyShape(line: string)
    requires ParseLine(line).Some?
    ensures '=' !in ParseLine(line).value.key
    ensures ParseLine(line).value.key != [] ==> ParseLine(line).value.key[0] != '#'
  {
    var k := IndexOf(line, '=').value;
    var p := line[..k];
    var key := Trim(p);
    assert ParseLine(line).value.key == key;
    TrimKeepsOut(p, '=');
    if key != [] {
      var n := LeadingWhite(p);
      assert key[0] == p[n];
      TrimStartOfPrefix(line, k);
      assert TrimStart(line)[0] == line[n] == p[n];
    }
  }

  /** char.ToUpperInvariant fixes '#' and '=' and maps nothing else onto them. */
  lemma ToUpperFixesPunctuation(c: char)
    ensures ToUpper(c) == '#' <==> c == '#'
    ensures ToUpper(c) == '=' <==> c == '='
  {
  }

  /** A word that starts with '#' is never found. */
  lemma HashWordNeverFound(lines: seq<string>, word: string)
    requires word != [] && word[0] == '#'
    ensures Translation(Some(lines), word) == Failure(WordNotFound)
  {
    LookupNone(lines, word);
    forall i | 0 <= i < |lines| ensures !Matches(lines[i], word) {
      if Matches(lines[i], word) {
        var key := ParseLine(lines[i]).value.key;
        ParsedKeyShape(lines[i]);
        ToUpperFixesPunctuation(key[0]);
      }
    }
  }

  /** A word that holds '=' is never found. */
  lemma EqualsWordNeverFound(lines: seq<string>, word: string)
    requires '=' in word
    ensures Translation(Some(lines), word) == Failure(WordNotFound)
  {
    LookupNone(lines, word);
    forall i | 0 <= i < |lines| ensures !Matches(lines[i], word) {
      if Matches(lines[i], word) {
        var key := ParseLine(lines[i]).value.key;
        ParsedKeyShape(lines[i]);
        var m :| 0 <= m < |word| && word[m] == '=';
        ToUpperFixesPunctuation(key[m]);
      }
    }
  }

  /** The first x of a + [x] + b is at |a| when a holds none. */
  lemma {:induction false} IndexOfAfter(a: string, x: char, b: string)
    requires x !in a
    ensures IndexOf(a + [x] + b, x) == Some(|a|)
  {
    var s := a + [x] + b;
    if a != [] {
      assert s[0] == a[0] && a[0] in a;
      assert s[1..] == a[1..] + [x] + b;
      IndexOfAfter(a[1..], x, b);
    }
  }

  /** The line AddDatakey writes splits at its middle '=' into the word and
      the word. */
  lemma DatakeyLineSplits(word: string)
    requires '=' !in word
    ensures IndexOf(word + "=" + word, '=') == Some(|word|)
    ensures (word + "=" + word)[..|word|] == word && (word + "=" + word)[|word| + 1..] == word
  {
    IndexOfAfter(word, '=', word);
  }

  /** The line AddDatakey writes is neither blank nor a comment, when the
      word has no surrounding white space and no leading '#'. */
  lemma DatakeyLineKept(word: string)
    requires Trim(word) == word && (word == [] || word[0] != '#')
    ensures !IsBlank(word + "=" + word) && !IsComment(word + "=" + word)
  {
    var line := word + "=" + word;
    assert line[|word|] == '=';
    if word != [] {
      TrimmedStart(word);
      assert line[0] == word[0];
    }
    assert !IsWhiteSpace(line[0]);
  }

  /** The line AddDatakey writes reads back as the word itself, when the
      word has no '=', no surrounding white space and no leading '#'. */
  lemma DatakeyLineParses(word: string)
    requires '=' !in word && Trim(word) == word && (word == [] || word[0] != '#')
    ensures Matches(word + "=" + word, word)
    ensures ParseLine(word + "=" + word).value.value == word
  {
    DatakeyLineSplits(word);
    DatakeyLineKept(word);
  }

  /** The lines after StreamWriter(path, true).WriteLine(text): the text
      starts a new line when the file is empty or ends with a line break;
      otherwise it is glued onto the last line. */
  function Appended(lines: seq<string>, terminated: bool, text: string): (r: seq<string>)
    ensures |r| == if terminated || lines == [] then |lines| + 1 else |lines|
    ensures forall i :: 0 <= i < |r| - 1 ==> r[i] == lines[i]
    ensures r[|r| - 1] == (if terminated || lines == [] then "" else lines[|lines| - 1]) + text
  {
    if terminated || lines == [] then lines + [text]
    else lines[..|lines| - 1] + [lines[|lines| - 1] + text]
  }

  /** AddDatakey followed by Translate gives the word back, unless an
      earlier line already matches it, when the file is empty or ends with a
      line break. */
  lemma AddedWordTranslatesToItself(file: Option<seq<string>>, terminated: bool, word: string)
    requires '=' !in word && Trim(word) == word && (word == [] || word[0] != '#')
    requires Lookup(Content(file), word).None?
    requires terminated || Content(file) == []
    ensures Translation(Some(Appended(Content(file), terminated, word + "=" + word)), word) == Success(word)
  {
    DatakeyLineParses(word);
    assert Appended(Content(file), terminated, word + "=" + word) == Content(file) + [word + "=" + word];
    LookupAppend(Content(file), [word + "=" + word], word);
  }

  /** Text glued onto a line that already holds an entry leaves its key as
      it was: the split is still at the line's first '='. */
  lemma GluedLineKeepsKey(last: string, text: string)
    requires ParseLine(last).Some?
    ensures ParseLine(last + text).Some?
    ensures ParseLine(last + text).value.key == ParseLine(last).value.key
  {
    var line := last + text;
    var k := IndexOf(last, '=').value;
    IndexOfAppend(last, text, '=');
    assert line[..k] == last[..k];
    assert line[..|last|] == last;
    TrimStartOfPrefix(line, |last|);
    var n := LeadingWhite(last);
    assert line[n] == last[n];
    assert !IsBlank(line) by {
      assert !IsWhiteSpace(line[n]);
    }
  }

  /** Without a final line break, `word=word` joins the last line, which
      keeps its own key: a word no line matched is still not found. */
  lemma GluedWordNotFound(lines: seq<string>, word: string)
    requires lines != [] && ParseLine(lines[|lines| - 1]).Some?
    requires Lookup(lines, word).None?
    ensures Translation(Some(Appended(lines, false, word + "=" + word)), word) == Failure(WordNotFound)
  {
    var n := |lines| - 1;
    var line := lines[n] + (word + "=" + word);
    LookupNone(lines, word);
    LookupPrefixNone(lines, word, n);
    GluedLineKeepsKey(lines[n], word + "=" + word);
    assert !Matches(line, word);
    assert [line][1..] == [];
    LookupAppend(lines[..n], [line], word);
  }

  class TranslationFile {
    /** The file's lines, or None when the file does not exist. */
    var lines: Option<seq<string>>
    /** Whether the last line ends with a line break. */
    var terminated: bool

    constructor (lines: Option<seq<string>>, terminated: bool)
      ensures this.lines == lines && this.terminated == terminated
    {
      this.lines := lines;
      this.terminated := terminated;
    }

    /** Translate: the reader loop over the lines, returning on the first
        matching key. */
    method Translate(word: string) returns (r: Result<string>)
      ensures r == Translation(lines, word)
    {
      if lines.None? {
        return Success(word);
      }
      var content := lines.value;
      var i := 0;
      while i < |content|
        invariant 0 <= i <= |content|
        invariant Lookup(content, word) == Lookup(content[i..], word)
      {
        var line := content[i];
        assert content[i..][1..] == content[i + 1..];
        i := i + 1;
        if IsBlank(line) || IsComment(line) {
          continue;
        }
        var split := IndexOf(line, '=');
        if split.None? {
          continue;
        }
        var key := Trim(line[..split.value]);
        var value := Trim(line[split.value + 1..]);
        if EqualsIgnoreCase(key, word) {
          return Success(value);
        }
      }
      return Failure(WordNotFound);
    }

    /** AddDatakey: write `word=word` and a line break at the end of the
        file, creating it when it is missing; a failed write is logged and
        changes nothing. */
    method AddDatakey(word: string, fails: bool)
      modifies this`lines, this`terminated
      ensures fails ==> lines == old(lines) && terminated == old(terminated)
      ensures !fails ==> lines == Some(Appended(Content(old(lines)), old(terminated), word + "=" + word))
      ensures !fails ==> terminated
    {
      if !fails {
        lines := Some(Appended(Content(lines), terminated, word + "=" + word));
        terminated := true;
      }
    }
  }

  /** Adding a plain word and translating it gives the word. */
  method AddThenTranslate(file: TranslationFile, word: string) returns (r: Result<string>)
    requires '=' !in word && Trim(word) == word && (word == [] || word[0] != '#')
    requires Lookup(Content(file.lines), word).None?
    requires file.terminated || Content(file.lines) == []
    modifies file`lines, file`terminated
    ensures r == Success(word)
  {
    AddedWordTranslatesToItself(file.lines, file.terminated, word);
    file.AddDatakey(word, false);
    r := file.Translate(word);
  }
}
