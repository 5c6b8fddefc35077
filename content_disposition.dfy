/**
  The `Content-Disposition` extraction shared by both iOS download paths: the
  first match of the regular expression `filename="?(.+?)"?` (searched with ICU
  semantics), with its first 9 and its last character dropped.

  With ICU semantics the lazy `.+?` takes exactly one character, because the
  optional quote after it can always match the empty string. A match is
  therefore 10 to 12 characters long, and the name taken from it is at most
  two characters long: the quoted file name itself is never captured.
*/
module ContentDisposition {
  import opened Foundation

  const FilenameKey: string := "filename="

  /**
    The characters that ICU's `.` does not match without dot-all: U+000A to
    U+000D (line feed, vertical tab, form feed, carriage return), U+0085,
    U+2028 and U+2029.
  */
  predicate IsLineTerminator(c: char)
  {
    '\n' <= c <= '\r' || c == '\U{0085}' || c == '\U{2028}' || c == '\U{2029}'
  }

  /**
    The length of the match of `filename="?(.+?)"?` that starts at position p,
    if there is one. The greedy `"?` first tries to take a quote; `.+?` then
    takes one character; the final `"?` takes a quote if one follows. When a
    quote stands right after `filename=` with nothing matchable behind it, the
    engine backtracks and `.+?` takes that quote instead.
  */
  function MatchLengthAt(s: string, p: nat): (r: Option<nat>)
    ensures r.Some? <==> p + 9 < |s| && s[p..p + 9] == FilenameKey && !IsLineTerminator(s[p + 9])
    ensures r.Some? ==> 10 <= r.value <= 12 && p + r.value <= |s|
    ensures r.Some? && r.value == 12 ==> s[p + 9] == '"' && s[p + 11] == '"'
    ensures r.Some? && r.value == 11 ==> s[p + 9] == '"' || s[p + 10] == '"'
  {
    if p + 9 < |s| && s[p..p + 9] == FilenameKey && !IsLineTerminator(s[p + 9]) then
      if s[p + 9] == '"' && p + 10 < |s| && !IsLineTerminator(s[p + 10]) then
        Some(if p + 11 < |s| && s[p + 11] == '"' then 12 else 11)
      else
        Some(if p + 10 < |s| && s[p + 10] == '"' then 11 else 10)
    else
      None
  }

  /** A match: where it starts and how long it is. */
  datatype Match = Match(start: nat, length: nat)

  /** `range(of:options: .regularExpression)`: the leftmost match at or after `from`. */
  function FirstMatch(s: string, from: nat): (m: Option<Match>)
    ensures m.Some? ==> from <= m.value.start && MatchLengthAt(s, m.value.start) == Some(m.value.length)
    ensures m.Some? ==> forall q :: from <= q < m.value.start ==> MatchLengthAt(s, q).None?
    ensures m.None? ==> forall q :: from <= q ==> MatchLengthAt(s, q).None?
    decreases |s| - from
  {
    if |s| <= from + 9 then None
    else match MatchLengthAt(s, from)
      case Some(n) => Some(Match(from, n))
      case None => FirstMatch(s, from + 1)
  }

  /**
    The name the controller takes from a `Content-Disposition` value:
    `disposition[range].dropFirst(9).dropLast()`, or None when nothing matches.
  */
  function HeaderFilename(disposition: string): (r: Option<string>)
    ensures r.Some? <==> exists p :: MatchLengthAt(disposition, p).Some?
    ensures r.Some? ==> |r.value| <= 2
    ensures r.Some? && |r.value| == 2 ==> r.value[0] == '"'
  {
    match FirstMatch(disposition, 0)
    case None => None
    case Some(m) => Some(disposition[m.start + 9..m.start + m.length - 1])
  }

  /**
    A name taken from the header never has a path extension: its only possible
    '.' is its last character.
  */
  lemma HeaderFilenameHasNoExtension(disposition: string)
    requires HeaderFilename(disposition).Some?
    ensures PathExtension(HeaderFilename(disposition).value) == ""
  {
    var n := HeaderFilename(disposition).value;
    if |n| == 2 {
      assert n[..1] == ['"'];
      assert DotSuffix(n[..1]) == None by {
        assert n[..1][..0] == [];
      }
    } else if |n| == 1 {
      assert n[..|n| - 1] == [];
      assert DotSuffix(n[..|n| - 1]) == None;
    }
  }

  /**
    A quoted file name of two or more characters collapses to one double quote:
    `filename="y.jpg"` yields `"`.
  */
  lemma QuotedNameYieldsQuote(name: string)
    requires |name| >= 2 && !IsLineTerminator(name[0]) && name[1] != '"'
    ensures HeaderFilename("filename=\"" + name + "\"") == Some("\"")
  {
    var s := "filename=\"" + name + "\"";
    assert s[0..9] == FilenameKey;
    assert s[9] == '"' && s[10] == name[0] && s[11] == name[1];
    assert MatchLengthAt(s, 0) == Some(11);
    assert s[9..10] == "\"";
  }

  /** With a one-character quoted name the quote and that character survive. */
  lemma OneCharacterQuotedName(c: char)
    requires !IsLineTerminator(c)
    ensures HeaderFilename("filename=\"" + [c] + "\"") == Some(['"', c])
  {
    var s := "filename=\"" + [c] + "\"";
    assert s[0..9] == FilenameKey;
    assert MatchLengthAt(s, 0) == Some(12);
    assert s[9..11] == ['"', c];
  }

  /** An unquoted name followed by more text yields the empty name. */
  lemma UnquotedNameYieldsEmpty(name: string)
    requires |name| >= 2 && name[0] != '"' && !IsLineTerminator(name[0]) && name[1] != '"'
    ensures HeaderFilename("filename=" + name) == Some("")
  {
    var s := "filename=" + name;
    assert s[0..9] == FilenameKey;
    assert s[9] == name[0] && s[10] == name[1];
    assert MatchLengthAt(s, 0) == Some(10);
  }

  /** The malformed header `filename=a"` yields the one-character name `a`. */
  lemma MalformedHeaderExample()
    ensures HeaderFilename("filename=a\"") == Some("a")
  {
    var s := "filename=a\"";
    assert s[0..9] == FilenameKey;
    assert MatchLengthAt(s, 0) == Some(11);
    assert s[9..10] == "a";
  }

  /** A vertical tab after `filename=` is a line terminator to `.`: nothing matches. */
  lemma VerticalTabBlocksMatch()
    ensures HeaderFilename("filename=\U{000B}ab").None?
  {
    var s := "filename=\U{000B}ab";
    forall q: nat
      ensures MatchLengthAt(s, q).None?
    {
      if q == 0 {
        assert IsLineTerminator(s[9]);
      }
    }
  }

  /** The concrete header of the usual attachment form. */
  lemma AttachmentHeaderExample()
    ensures HeaderFilename("attachment; filename=\"y.jpg\"") == Some("\"")
  {
    var s := "attachment; filename=\"y.jpg\"";
    var prefix := "attachment; filename";
    assert s == prefix + "=\"y.jpg\"";
    assert forall i | 0 <= i < |prefix| :: prefix[i] != '=';
    forall q | 0 <= q < 12
      ensures MatchLengthAt(s, q).None?
    {
      assert s[q + 8] == prefix[q + 8];
      assert s[q..q + 9][8] != FilenameKey[8];
    }
    assert s[12..21] == FilenameKey;
    assert MatchLengthAt(s, 12) == Some(11);
    assert s[21..22] == "\"";
  }
}
