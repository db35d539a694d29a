/**
 * LocalizationManager's text table: a resource text of `key=value` lines is
 * split into lines, blank lines and `#` comments are skipped, each line is
 * split at its first `=`, both sides are trimmed, and the value has its
 * escaped newlines and doubled braces undone. Parsing replaces the whole
 * table; a later line for the same key wins. A lookup of a missing key yields
 * the configured prefix followed by the key.
 *
 * String.Replace, String.Trim, String.Split and String.IndexOf are modelled
 * with their ordinal (character-by-character) meaning.
 */
module Localization {
  import opened Wrappers

  /** Char.IsWhiteSpace: the Unicode space separators, line and paragraph separators, and U+0009-U+000D, U+0085. */
  predicate IsWhiteSpace(c: char) {
    || c == ' ' || ('\t' <= c <= '\r') || c == '\U{85}' || c == '\U{A0}' || c == '\U{1680}'
    || ('\U{2000}' <= c <= '\U{200A}') || c == '\U{2028}' || c == '\U{2029}' || c == '\U{202F}'
    || c == '\U{205F}' || c == '\U{3000}'
  }

  predicate IsLineBreak(c: char) {
    c == '\r' || c == '\n'
  }

  /** A line: text without CR or LF. */
  predicate NoBreaks(text: string) {
    forall c | c in text :: !IsLineBreak(c)
  }

  /** Leading white space removed: the longest suffix that does not start with white space. */
  function TrimStart(s: string): (r: string)
    ensures |r| <= |s| && r == s[|s| - |r|..]
    ensures r != [] ==> !IsWhiteSpace(r[0])
    ensures forall i | 0 <= i < |s| - |r| :: IsWhiteSpace(s[i])
    decreases |s|
  {
    if s != [] && IsWhiteSpace(s[0]) then TrimStart(s[1..]) else s
  }

  /** Trailing white space removed: the longest prefix that does not end with white space. */
  function TrimEnd(s: string): (r: string)
    ensures |r| <= |s| && r == s[..|r|]
    ensures r != [] ==> !IsWhiteSpace(r[|r| - 1])
    ensures forall i | |r| <= i < |s| :: IsWhiteSpace(s[i])
    decreases |s|
  {
    if s != [] && IsWhiteSpace(s[|s| - 1]) then TrimEnd(s[..|s| - 1]) else s
  }

  /** String.Trim: empty exactly when s is all white space, and otherwise starting and ending with a character that is not. */
  function Trim(s: string): (r: string)
    ensures |r| <= |s|
    ensures r == [] <==> IsBlank(s)
    ensures r != [] ==> !IsWhiteSpace(r[0]) && !IsWhiteSpace(r[|r| - 1])
  {
    TrimmedEnds(s);
    TrimEnd(TrimStart(s))
  }

  /** The facts behind Trim's contract, about TrimStart followed by TrimEnd. */
  lemma TrimmedEnds(s: string)
    ensures TrimEnd(TrimStart(s)) == [] <==> IsBlank(s)
    ensures TrimEnd(TrimStart(s)) != [] ==> !IsWhiteSpace(TrimEnd(TrimStart(s))[0])
  {
    var t := TrimStart(s);
    if t != [] {
      assert !IsWhiteSpace(t[0]) && t[0] == s[|s| - |t|];
      assert TrimEnd(t) != [];
      assert TrimEnd(t)[0] == t[0];
    } else {
      forall c | c in s ensures IsWhiteSpace(c) {
        var i :| 0 <= i < |s| && s[i] == c;
      }
    }
  }

  /** Trimming again changes nothing: a trimmed text neither starts nor ends with white space. */
  lemma TrimIdempotent(s: string)
    ensures Trim(Trim(s)) == Trim(s)
    ensures Trim(s) != [] ==> !IsWhiteSpace(Trim(s)[0]) && !IsWhiteSpace(Trim(s)[|Trim(s)| - 1])
  {
    var t := Trim(s);
    if t != [] {
      assert t[0] == TrimStart(s)[0];
    }
  }

  /** String.IndexOf(char): the first position of c, or None (C#'s -1). */
  function IndexOf(s: string, c: char): (r: Option<nat>)
    ensures r.None? <==> c !in s
    ensures r.Some? ==> r.value < |s| && s[r.value] == c && c !in s[..r.value]
    decreases |s|
  {
    if s == [] then None
    else if s[0] == c then Some(0)
    else match IndexOf(s[1..], c)
      case None => None
      case Some(i) =>
        assert s[..i + 1] == [s[0]] + s[1..][..i];
        Some(i + 1)
  }

  /**
   * String.Replace of a two-character string by one character: occurrences
   * are found left to right and do not overlap.
   */
  function ReplaceDigraph(s: string, first: char, second: char, single: char): string
    decreases |s|
  {
    if |s| < 2 then s
    else if s[0] == first && s[1] == second then [single] + ReplaceDigraph(s[2..], first, second, single)
    else [s[0]] + ReplaceDigraph(s[1..], first, second, single)
  }

  /** Replacing never lengthens a text, and a text without `first` is left alone. */
  lemma {:induction false} ReplaceDigraphShrinks(s: string, first: char, second: char, single: char)
    ensures |ReplaceDigraph(s, first, second, single)| <= |s|
    ensures first !in s ==> ReplaceDigraph(s, first, second, single) == s
    decreases |s|
  {
    if |s| >= 2 {
      if s[0] == first && s[1] == second {
        ReplaceDigraphShrinks(s[2..], first, second, single);
      } else {
        ReplaceDigraphShrinks(s[1..], first, second, single);
        assert s == [s[0]] + s[1..];
      }
    }
  }

  /** Whether s contains `first` immediately followed by `second`. */
  predicate HasDigraph(s: string, first: char, second: char) {
    exists i | 0 <= i < |s| - 1 :: s[i] == first && s[i + 1] == second
  }

  /**
   * UnescapeNewlines: the two characters backslash and `n` become a newline.
   * The text never grows, and a text without a backslash is left alone.
   */
  function UnescapeNewlines(s: string): (r: string)
    ensures |r| <= |s|
    ensures '\\' !in s ==> r == s
  {
    ReplaceDigraphShrinks(s, '\\', 'n', '\n');
    ReplaceDigraph(s, '\\', 'n', '\n')
  }

  /**
   * ProcessPlaceholders: `{{` becomes `{`, then `}}` becomes `}`. The text
   * never grows, and a text without braces is left alone.
   */
  function ProcessPlaceholders(rawValue: string): (r: string)
    ensures |r| <= |rawValue|
    ensures '{' !in rawValue && '}' !in rawValue ==> r == rawValue
  {
    ReplaceDigraphShrinks(rawValue, '{', '{', '{');
    ReplaceDigraphShrinks(ReplaceDigraph(rawValue, '{', '{', '{'), '}', '}', '}');
    ReplaceDigraph(ReplaceDigraph(rawValue, '{', '{', '{'), '}', '}', '}')
  }

  /** The writer's side of UnescapeNewlines: every newline written as backslash and `n`. */
  function EscapeNewlines(s: string): (r: string)
    ensures r != [] <==> s != []
    ensures r != [] ==> r[0] == (if s[0] == '\n' then '\\' else s[0])
    decreases |s|
  {
    if s == [] then []
    else if s[0] == '\n' then ['\\', 'n'] + EscapeNewlines(s[1..])
    else [s[0]] + EscapeNewlines(s[1..])
  }

  /**
   * Unescaping undoes escaping, for every text that does not itself contain
   * a backslash followed by `n`.
   */
  lemma {:induction false} UnescapeEscapeNewlines(s: string)
    requires !HasDigraph(s, '\\', 'n')
    ensures UnescapeNewlines(EscapeNewlines(s)) == s
    decreases |s|
  {
    if s != [] {
      var rest := s[1..];
      forall i | 0 <= i < |rest| - 1
        ensures !(rest[i] == '\\' && rest[i + 1] == 'n')
      {
        assert rest[i] == s[i + 1] && rest[i + 1] == s[i + 2];
      }
      UnescapeEscapeNewlines(rest);
      var e := EscapeNewlines(rest);
      if s[0] == '\n' {
        assert EscapeNewlines(s) == ['\\', 'n'] + e;
        assert (['\\', 'n'] + e)[2..] == e;
      } else {
        assert EscapeNewlines(s) == [s[0]] + e;
        assert ([s[0]] + e)[1..] == e;
        if e != [] && s[0] == '\\' {
          assert rest[0] == s[1];
          assert !(s[0] == '\\' && s[1] == 'n');
        }
      }
    }
  }

  /** The writer's side of ProcessPlaceholders: every brace written twice. */
  function DoubleBraces(s: string): string
    decreases |s|
  {
    if s == [] then []
    else if s[0] == '{' then ['{', '{'] + DoubleBraces(s[1..])
    else if s[0] == '}' then ['}', '}'] + DoubleBraces(s[1..])
    else [s[0]] + DoubleBraces(s[1..])
  }

  /** s with only its closing braces written twice: what the first replacement leaves of DoubleBraces(s). */
  function DoubleClosingBraces(s: string): (r: string)
    ensures r != [] <==> s != []
    ensures r != [] ==> r[0] == s[0]
    decreases |s|
  {
    if s == [] then []
    else if s[0] == '}' then ['}', '}'] + DoubleClosingBraces(s[1..])
    else [s[0]] + DoubleClosingBraces(s[1..])
  }

  lemma {:induction false} CollapseOpeningBraces(s: string)
    ensures ReplaceDigraph(DoubleBraces(s), '{', '{', '{') == DoubleClosingBraces(s)
    decreases |s|
  {
    if s != [] {
      CollapseOpeningBraces(s[1..]);
      var d := DoubleBraces(s[1..]);
      if s[0] == '{' {
        assert (['{', '{'] + d)[2..] == d;
      } else if s[0] == '}' {
        assert (['}', '}'] + d)[1..] == ['}'] + d;
        assert (['}'] + d)[1..] == d;
      } else {
        assert ([s[0]] + d)[1..] == d;
      }
    }
  }

  lemma {:induction false} CollapseClosingBraces(s: string)
    ensures ReplaceDigraph(DoubleClosingBraces(s), '}', '}', '}') == s
    decreases |s|
  {
    if s != [] {
      CollapseClosingBraces(s[1..]);
      var d := DoubleClosingBraces(s[1..]);
      if s[0] == '}' {
        assert (['}', '}'] + d)[2..] == d;
      } else {
        assert ([s[0]] + d)[1..] == d;
        assert d != [] ==> d[0] == s[1];
      }
      assert s == [s[0]] + s[1..];
    }
  }

  /** Placeholder processing undoes brace doubling, for every text. */
  lemma ProcessPlaceholdersUndoesDoubling(s: string)
    ensures ProcessPlaceholders(DoubleBraces(s)) == s
  {
    CollapseOpeningBraces(s);
    CollapseClosingBraces(s);
  }

  /**
   * String.Split on "\r\n", "\r" and "\n", tried in that order at each
   * position, keeping empty pieces.
   */
  function Pieces(s: string): (r: seq<string>)
    ensures |r| >= 1
    ensures forall p | p in r :: NoBreaks(p)
    decreases |s|
  {
    if s == [] then [[]]
    else if |s| >= 2 && s[0] == '\r' && s[1] == '\n' then [[]] + Pieces(s[2..])
    else if IsLineBreak(s[0]) then [[]] + Pieces(s[1..])
    else
      var rest := Pieces(s[1..]);
      assert rest[0] in rest && NoBreaks([s[0]] + rest[0]);
      assert forall p | p in rest[1..] :: p in rest;
      [[s[0]] + rest[0]] + rest[1..]
  }

  /** StringSplitOptions.RemoveEmptyEntries. */
  function NonEmpty(pieces: seq<string>): (r: seq<string>)
    ensures forall p | p in r :: p != [] && p in pieces
    decreases |pieces|
  {
    if pieces == [] then []
    else if pieces[0] == [] then NonEmpty(pieces[1..])
    else [pieces[0]] + NonEmpty(pieces[1..])
  }

  /** SplitLines: split at CRLF, CR and LF, dropping empty lines. */
  function SplitLines(input: string): (lines: seq<string>)
    ensures forall line | line in lines :: line != [] && NoBreaks(line)
  {
    NonEmpty(Pieces(input))
  }

  /** Lines joined with LF: the writer's side of SplitLines. */
  function JoinLines(lines: seq<string>): string
    decreases |lines|
  {
    if lines == [] then []
    else if |lines| == 1 then lines[0]
    else lines[0] + "\n" + JoinLines(lines[1..])
  }

  /** A prefix without line breaks joins the first piece of what follows it. */
  lemma {:induction false} PiecesOfPrefix(w: string, t: string)
    requires NoBreaks(w)
    ensures Pieces(w + t) == [w + Pieces(t)[0]] + Pieces(t)[1..]
    decreases |w|
  {
    if w != [] {
      assert (w + t)[1..] == w[1..] + t;
      assert (w + t)[0] == w[0] && w[0] in w;
      PiecesOfPrefix(w[1..], t);
      var r := Pieces(w[1..] + t);
      assert r[0] == w[1..] + Pieces(t)[0];
      assert r[1..] == Pieces(t)[1..];
      assert Pieces(w + t) == [[w[0]] + r[0]] + r[1..];
      assert [w[0]] + (w[1..] + Pieces(t)[0]) == w + Pieces(t)[0];
    } else {
      assert w + t == t;
      assert Pieces(t) == [Pieces(t)[0]] + Pieces(t)[1..];
      assert w + Pieces(t)[0] == Pieces(t)[0];
    }
  }

  /** Splitting undoes joining, for non-empty lines without line breaks. */
  lemma {:induction false} SplitLinesJoinLines(lines: seq<string>)
    requires forall line | line in lines :: line != [] && NoBreaks(line)
    ensures SplitLines(JoinLines(lines)) == lines
    decreases |lines|
  {
    if |lines| == 1 {
      assert lines[0] in lines;
      PiecesOfPrefix(lines[0], []);
      assert lines[0] + [] == lines[0];
      assert Pieces([]) == [[]];
      assert Pieces(lines[0]) == [lines[0]];
      assert NonEmpty([lines[0]]) == [lines[0]] + NonEmpty([]);
    } else if |lines| > 1 {
      var rest := JoinLines(lines[1..]);
      forall line | line in lines[1..]
        ensures line != [] && NoBreaks(line)
      {
        assert line in lines;
      }
      SplitLinesJoinLines(lines[1..]);
      assert lines[0] in lines;
      assert lines[0] + "\n" + rest == lines[0] + ("\n" + rest);
      PiecesOfPrefix(lines[0], "\n" + rest);
      assert ("\n" + rest)[1..] == rest;
      var p := Pieces(rest);
      assert Pieces("\n" + rest) == [[]] + p;
      assert ([[]] + p)[1..] == p;
      assert lines[0] + [] == lines[0];
      assert Pieces(lines[0] + "\n" + rest) == [lines[0]] + p;
      assert ([lines[0]] + p)[1..] == p;
      assert NonEmpty([lines[0]] + p) == [lines[0]] + NonEmpty(p);
      assert lines == [lines[0]] + lines[1..];
    }
  }

  /** String.IsNullOrWhiteSpace, for a non-null string. */
  predicate IsBlank(line: string) {
    forall c | c in line :: IsWhiteSpace(c)
  }

  /**
   * ParseLine: no entry when the line has no `=` or starts with one;
   * otherwise the trimmed text before the first `=` and the trimmed,
   * unescaped text after it.
   */
  function ParseLine(line: string): (r: Option<(string, string)>)
    ensures r.None? <==> '=' !in line || line[0] == '='
  {
    match IndexOf(line, '=')
    case None => None
    case Some(index) =>
      if index == 0 then None
      else Some((Trim(line[..index]), UnescapeNewlines(Trim(line[index + 1..]))))
  }

  /** The split is at the first `=`: a value may contain further `=`. */
  lemma ParseLineSplitsAtFirstEquals(key: string, value: string)
    requires key != [] && '=' !in key
    ensures ParseLine(key + "=" + value) == Some((Trim(key), UnescapeNewlines(Trim(value))))
  {
    var line := key + "=" + value;
    EqualsAfterKey(key, value);
    assert line[..|key|] == key;
    assert line[|key| + 1..] == value;
  }

  /** The first `=` of key + "=" + value is the one after the key. */
  lemma EqualsAfterKey(key: string, value: string)
    requires '=' !in key
    ensures IndexOf(key + "=" + value, '=') == Some(|key|)
  {
    var line := key + "=" + value;
    assert line[|key|] == '=';
    assert forall j | 0 <= j < |key| :: line[j] == key[j];
    assert forall j | |key| < j <= |line| :: line[..j][|key|] == '=';
  }

  /** What one line contributes to the table: a non-empty key and its processed value, or nothing. */
  function Entry(line: string): (e: Option<(string, string)>)
    ensures e.Some? ==> e.value.0 != []
    ensures IsBlank(line) || (line != [] && line[0] == '#') ==> e.None?
    ensures line != [] && !IsBlank(line) && line[0] != '#' && ParseLine(line).Some? && ParseLine(line).value.0 != [] ==>
      e == Some((ParseLine(line).value.0, ProcessPlaceholders(ParseLine(line).value.1)))
    ensures line != [] && !IsBlank(line) && line[0] != '#' && (ParseLine(line).None? || ParseLine(line).value.0 == []) ==>
      e.None?
  {
    if IsBlank(line) then None
    else if line[0] == '#' then None
    else match ParseLine(line)
      case None => None
      case Some((key, value)) => if key == [] then None else Some((key, ProcessPlaceholders(value)))
  }

  /**
   * A `key=value` line whose key holds no `=`, is not all white space and
   * does not start with `#` stores the trimmed key and the trimmed, unescaped
   * value with its doubled braces undone.
   */
  lemma KeyValueLineEntry(key: string, value: string)
    requires '=' !in key && Trim(key) != [] && key[0] != '#'
    ensures Entry(key + "=" + value) == Some((Trim(key), ProcessPlaceholders(UnescapeNewlines(Trim(value)))))
  {
    var line := key + "=" + value;
    ParseLineSplitsAtFirstEquals(key, value);
    var c :| c in key && !IsWhiteSpace(c);
    assert c in line;
    assert line[0] == key[0];
  }

  /** Whether an entry sets key. */
  predicate Sets(e: Option<(string, string)>, key: string) {
    e.Some? && e.value.0 == key
  }

  /** The entry of each line, in order. */
  function Entries(lines: seq<string>): (es: seq<Option<(string, string)>>)
    ensures |es| == |lines|
    ensures forall i | 0 <= i < |lines| :: es[i] == Entry(lines[i])
  {
    seq(|lines|, i requires 0 <= i < |lines| => Entry(lines[i]))
  }

  /** Entries applied in order to an empty table; a later entry for a key overwrites an earlier one. */
  function Fold(es: seq<Option<(string, string)>>): map<string, string>
    decreases |es|
  {
    if es == [] then map[] else AddEntry(Fold(es[..|es| - 1]), es[|es| - 1])
  }

  /** One step of the fold: the table after one more entry. */
  function AddEntry(table: map<string, string>, e: Option<(string, string)>): (r: map<string, string>)
    ensures forall key :: key in r <==> key in table || Sets(e, key)
    ensures e.None? ==> r == table
    ensures e.Some? ==> e.value.0 in r && r[e.value.0] == e.value.1
    ensures forall key | key in table && !Sets(e, key) :: r[key] == table[key]
  {
    match e
    case None => table
    case Some((key, value)) => table[key := value]
  }

  /** A key is in the folded table exactly when some entry sets it. */
  lemma {:induction false} FoldKeys(es: seq<Option<(string, string)>>, key: string)
    ensures key in Fold(es) <==> exists i | 0 <= i < |es| :: Sets(es[i], key)
    decreases |es|
  {
    if es != [] {
      var init := es[..|es| - 1];
      FoldKeys(init, key);
      if key in Fold(es) {
        if !Sets(es[|es| - 1], key) {
          var i :| 0 <= i < |init| && Sets(init[i], key);
          assert es[i] == init[i];
        }
      } else {
        forall i | 0 <= i < |es|
          ensures !Sets(es[i], key)
        {
          if i < |init| {
            assert es[i] == init[i];
          }
        }
      }
    }
  }

  /** The value of a key is the one of the last entry that sets it. */
  lemma {:induction false} FoldLastWins(es: seq<Option<(string, string)>>, i: nat)
    requires i < |es| && es[i].Some?
    requires forall j | i < j < |es| :: !Sets(es[j], es[i].value.0)
    ensures es[i].value.0 in Fold(es) && Fold(es)[es[i].value.0] == es[i].value.1
    decreases |es|
  {
    var init := es[..|es| - 1];
    if i < |es| - 1 {
      assert init[i] == es[i];
      forall j | i < j < |init| ensures !Sets(init[j], init[i].value.0) {
        assert init[j] == es[j];
      }
      FoldLastWins(init, i);
    }
  }

  /** The table ParseLocalizationData builds from the lines, taken in order. */
  function Table(lines: seq<string>): map<string, string> {
    Fold(Entries(lines))
  }

  /** A key is in the table exactly when some line yields an entry for it; so the empty key never is. */
  lemma TableKeys(lines: seq<string>, key: string)
    ensures key in Table(lines) <==> exists i | 0 <= i < |lines| :: Sets(Entry(lines[i]), key)
    ensures [] !in Table(lines)
  {
    var es := Entries(lines);
    FoldKeys(es, key);
    FoldKeys(es, []);
  }

  /** The value of a key is the one from the last line that yields an entry for it. */
  lemma TableLastLineWins(lines: seq<string>, i: nat)
    requires i < |lines| && Entry(lines[i]).Some?
    requires forall j | i < j < |lines| :: !Sets(Entry(lines[j]), Entry(lines[i]).value.0)
    ensures Entry(lines[i]).value.0 in Table(lines)
    ensures Table(lines)[Entry(lines[i]).value.0] == Entry(lines[i]).value.1
  {
    FoldLastWins(Entries(lines), i);
  }

  class LocalizationManager {
    var localizedText: map<string, string>
    /** config.missingKeyPrefix. */
    var missingKeyPrefix: string

    constructor ()
      ensures localizedText == map[] && missingKeyPrefix == "[MISSING]"
    {
      localizedText := map[];
      missingKeyPrefix := "[MISSING]";
    }

    /** Clears the table, then adds the entry of every line of data, in order. */
    method ParseLocalizationData(data: string)
      modifies this
      ensures localizedText == Table(SplitLines(data))
      ensures missingKeyPrefix == old(missingKeyPrefix)
    {
      localizedText := map[];
      var lines := SplitLines(data);
      ghost var es := Entries(lines);
      var i := 0;
      while i < |lines|
        invariant 0 <= i <= |lines|
        invariant localizedText == Fold(es[..i])
        invariant missingKeyPrefix == old(missingKeyPrefix)
      {
        var line := lines[i];
        assert es[..i + 1][..i] == es[..i];
        assert Fold(es[..i + 1]) == AddEntry(localizedText, Entry(line));
        if IsBlank(line) {
          i := i + 1;
          continue;
        }
        if line[0] == '#' {
          i := i + 1;
          continue;
        }
        var parsed := ParseLine(line);
        if parsed.Some? && parsed.value.0 != [] {
          assert Entry(line) == Some((parsed.value.0, ProcessPlaceholders(parsed.value.1)));
          localizedText := localizedText[parsed.value.0 := ProcessPlaceholders(parsed.value.1)];
        } else {
          assert Entry(line).None?;
        }
        i := i + 1;
      }
      assert es[..i] == es;
    }

    /**
     * The text for key: a missing key yields the prefix followed by the key;
     * a present one its value passed through `format` (string.Format with
     * the caller's arguments).
     */
    function Get(key: string, format: string -> string): (r: string)
      reads this
      ensures key !in localizedText ==>
        |r| == |missingKeyPrefix| + |key| && r[..|missingKeyPrefix|] == missingKeyPrefix && r[|missingKeyPrefix|..] == key
      ensures key in localizedText ==> r == format(localizedText[key])
    {
      if key !in localizedText then missingKeyPrefix + key else format(localizedText[key])
    }
  }
}
