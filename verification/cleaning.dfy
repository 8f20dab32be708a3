/** `cleanResponse`: turning a prompt-terminated adapter reply into one line
    of text. The legacy revision (PROVAOBDService) removes carriage returns
    and the `>` prompt and turns line feeds into spaces; the current revision
    (O-Buddy) additionally trims surrounding whitespace. */
module Cleaning {
  import opened Text

  /** No carriage return, line feed or prompt character left in `s`. */
  predicate IsOneLine(s: string) {
    '\r' !in s && '\n' !in s && '>' !in s
  }

  /** The legacy `cleanResponse`: the three replacements in source order,
      without trimming. */
  function CleanLegacy(s: string): (r: string)
    ensures IsOneLine(r)
    ensures forall c :: c in r ==> c == ' ' || c in s
    ensures IsOneLine(s) ==> r == s
    ensures var m := multiset(s);
      multiset(r) == m['\r' := 0]['\n' := 0][' ' := m[' '] + m['\n']]['>' := 0]
  {
    ReplacementCounts(s);
    ReplaceChar(ReplaceChar(ReplaceChar(s, '\r', ""), '\n', " "), '>', "")
  }

  /** How often each character occurs once the three replacements are done. */
  lemma ReplacementCounts(s: string)
    ensures var m := multiset(s);
      multiset(ReplaceChar(ReplaceChar(ReplaceChar(s, '\r', ""), '\n', " "), '>', ""))
        == m['\r' := 0]['\n' := 0][' ' := m[' '] + m['\n']]['>' := 0]
  {
    var s1 := ReplaceChar(s, '\r', "");
    var s2 := ReplaceChar(s1, '\n', " ");
    ReplaceCharRemoves(s, '\r');
    ReplaceCharCounts(s1, '\n', ' ');
    ReplaceCharRemoves(s2, '>');
  }

  /** On one character: a carriage return or the prompt disappears, a line
      feed becomes a space, anything else stays. With `CleanLegacyAppend`
      this fixes the result on every reply. */
  lemma CleanLegacyOne(c: char)
    ensures CleanLegacy([c]) == if c == '\r' || c == '>' then "" else if c == '\n' then " " else [c]
  {
    ReplaceCharOne(c, '\r', "");
    if c != '\r' {
      ReplaceCharOne(c, '\n', " ");
      var c1 := if c == '\n' then ' ' else c;
      ReplaceCharOne(c1, '>', "");
    } else {
      assert ReplaceChar("", '\n', " ") == "";
      assert ReplaceChar("", '>', "") == "";
    }
  }

  /** A line feed alone cleans to one space. */
  lemma CleanLegacyLineFeed()
    ensures CleanLegacy("\n") == " "
  {
    CleanLegacyOne('\n');
  }

  /** The current `cleanResponse`: the legacy replacements, then a trim. */
  function Clean(s: string): (r: string)
    ensures IsOneLine(r)
    ensures IsTrimmed(r)
    ensures forall c :: c in r ==> c == ' ' || c in s
    ensures IsOneLine(s) && IsTrimmed(s) ==> r == s
  {
    Trim(CleanLegacy(s))
  }

  /** Cleaning an already cleaned reply changes nothing (legacy revision). */
  lemma CleanLegacyIdempotent(s: string)
    ensures CleanLegacy(CleanLegacy(s)) == CleanLegacy(s)
  {
  }

  /** Cleaning an already cleaned reply changes nothing (current revision). */
  lemma CleanIdempotent(s: string)
    ensures Clean(Clean(s)) == Clean(s)
  {
  }

  /** The legacy cleaning works character by character, so a reply assembled
      from chunks cleans to the concatenation of its cleaned chunks. */
  lemma CleanLegacyAppend(a: string, b: string)
    ensures CleanLegacy(a + b) == CleanLegacy(a) + CleanLegacy(b)
  {
    ReplaceCharAppend(a, b, '\r', "");
    var a1, b1 := ReplaceChar(a, '\r', ""), ReplaceChar(b, '\r', "");
    ReplaceCharAppend(a1, b1, '\n', " ");
    var a2, b2 := ReplaceChar(a1, '\n', " "), ReplaceChar(b1, '\n', " ");
    ReplaceCharAppend(a2, b2, '>', "");
  }

  /** The two revisions differ only by the trim: they agree exactly when the
      legacy result has no surrounding whitespace. */
  lemma RevisionsAgreeIffTrimmed(s: string)
    ensures Clean(s) == CleanLegacy(s) <==> IsTrimmed(CleanLegacy(s))
  {
  }

  /** An adapter reply is a line of text followed by two carriage returns and
      the prompt: the legacy revision gives back the line itself, the current
      one the line without surrounding whitespace. */
  lemma CleanPromptedLine(line: string)
    requires IsOneLine(line)
    ensures CleanLegacy(line + "\r\r>") == line
    ensures Clean(line + "\r\r>") == Trim(line)
  {
    assert CleanLegacy("\r\r>") == "" by {
      assert ReplaceChar("\r\r>", '\r', "") == ">" by {
        assert ReplaceChar(">", '\r', "") == ">";
      }
      assert ReplaceChar(">", '\n', " ") == ">";
      assert ReplaceChar(">", '>', "") == "" by {
        assert ReplaceChar("", '>', "") == "";
      }
    }
    CleanLegacyAppend(line, "\r\r>");
  }
}
