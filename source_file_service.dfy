/**
 * The namespace-declaration rewriter and the byte-order-mark classifier of
 * `Services/SourceFileService.cs`.
 *
 * The two regular expressions of `UpdateNamespacesInFile` are modelled as one
 * left-to-right scanner, `ReplaceFrom`, parameterised by the rule. At each
 * position it decides whether the pattern matches there and, if so, where the
 * match ends, the way the regex engine's greedy quantifiers and backtracking
 * decide it; `MatchAtIsRegexMatch` relates that decision to the pattern read
 * as a plain existential statement. Every captured group is put back
 * verbatim, so a match only swaps the old identifier for the new one.
 */
module SourceFileService {
  import opened Wrappers
  import opened Text
  import Paths

  newtype byte = x: int | 0 <= x < 256

  // ---------------------------------------------------------------------------
  // Encoding detection
  // ---------------------------------------------------------------------------

  /** The encodings `DetectEncoding` can return. */
  datatype TextEncoding =
    | Utf8WithSignature     // Encoding.UTF8
    | Utf32LittleEndian     // Encoding.UTF32
    | Utf16LittleEndian     // Encoding.Unicode
    | Utf16BigEndian        // Encoding.BigEndianUnicode
    | Utf8NoSignature       // new UTF8Encoding(false)

  /** The four-byte buffer that is read: the file's first bytes, zero where the file is shorter. */
  function SignatureBuffer(data: seq<byte>): (bom: seq<byte>)
    ensures |bom| == 4
    ensures forall k :: 0 <= k < 4 ==> bom[k] == if k < |data| then data[k] else 0
  {
    seq(4, k requires 0 <= k < 4 => if k < |data| then data[k] else 0)
  }

  /**
   * `DetectEncoding`, on the bytes of the file. The checks run in the
   * source's order, so `FF FE 00 00` wins over `FF FE`, and a file that is
   * only `FF FE` (padded with zeros) counts as UTF-32.
   */
  function DetectEncoding(data: seq<byte>): (e: TextEncoding)
    ensures e == Utf8WithSignature <==> |data| >= 3 && data[..3] == [0xEF, 0xBB, 0xBF]
    ensures e == Utf32LittleEndian <==>
              |data| >= 2 && data[..2] == [0xFF, 0xFE] && forall k :: 2 <= k < |data| && k < 4 ==> data[k] == 0
    ensures e == Utf16LittleEndian <==>
              |data| >= 3 && data[..2] == [0xFF, 0xFE] && exists k :: 2 <= k < |data| && k < 4 && data[k] != 0
    ensures e == Utf16BigEndian <==> |data| >= 2 && data[..2] == [0xFE, 0xFF]
  {
    var bom := SignatureBuffer(data);
    if bom[0] == 0xEF && bom[1] == 0xBB && bom[2] == 0xBF then Utf8WithSignature
    else if bom[0] == 0xFF && bom[1] == 0xFE && bom[2] == 0 && bom[3] == 0 then Utf32LittleEndian
    else if bom[0] == 0xFF && bom[1] == 0xFE then Utf16LittleEndian
    else if bom[0] == 0xFE && bom[1] == 0xFF then Utf16BigEndian
    else Utf8NoSignature
  }

  /** The signature each encoding writes in front of the text (`GetPreamble`). */
  function Preamble(e: TextEncoding): seq<byte>
  {
    match e
    case Utf8WithSignature => [0xEF, 0xBB, 0xBF]
    case Utf32LittleEndian => [0xFF, 0xFE, 0, 0]
    case Utf16LittleEndian => [0xFF, 0xFE]
    case Utf16BigEndian => [0xFE, 0xFF]
    case Utf8NoSignature => []
  }

  /** Whether the bytes start with one of the recognised signatures. */
  predicate HasSignature(data: seq<byte>)
  {
    (|data| >= 3 && data[..3] == [0xEF, 0xBB, 0xBF])
    || (|data| >= 2 && (data[..2] == [0xFF, 0xFE] || data[..2] == [0xFE, 0xFF]))
  }

  /**
   * A file written in an encoding reads back as that encoding, except that
   * UTF-16 LE text whose first code unit is zero (or that is empty) reads back
   * as UTF-32, and signature-less text must not start like a signature.
   */
  lemma {:induction false} WrittenEncodingReadsBack(e: TextEncoding, body: seq<byte>)
    requires e == Utf16LittleEndian ==> exists k :: 0 <= k < |body| && k < 2 && body[k] != 0
    requires e == Utf8NoSignature ==> !HasSignature(body)
    ensures DetectEncoding(Preamble(e) + body) == e
  {
    var data := Preamble(e) + body;
    assert data[..|Preamble(e)|] == Preamble(e);
    if e == Utf16LittleEndian {
      var k :| 0 <= k < |body| && k < 2 && body[k] != 0;
      assert data[k + 2] == body[k];
    }
    if e == Utf8NoSignature {
      assert data == body;
    }
  }

  /** An empty UTF-16 LE file, `FF FE`, is classified as UTF-32. */
  lemma ShortUtf16SignatureReadsAsUtf32()
    ensures DetectEncoding([0xFF, 0xFE]) == Utf32LittleEndian
  {
  }

  // ---------------------------------------------------------------------------
  // Namespace declaration rules
  // ---------------------------------------------------------------------------

  /** The block-scoped rule `(\bnamespace\s+)Old(\s*[\{\r\n]|\.|\s*$)` and the file-scoped rule `(\bnamespace\s+)Old(\.[\w.]*)?(\s*;)`. */
  datatype Rule = BlockScoped | FileScoped

  /** A match: where the old identifier starts, and where the whole match ends. */
  datatype Match = Match(idStart: nat, end: nat)

  const Keyword: string := "namespace"

  /**
   * What the source's callers pass as the old name: a project name, never
   * empty and not starting with whitespace (so `\s+` cannot give characters
   * back to it).
   */
  predicate ValidOldName(oldName: string)
  {
    oldName != [] && !IsWhitespace(oldName[0])
  }

  /**
   * A new name that `$1{newNamespace}$2` inserts literally: no `$`, and no
   * leading digit that would extend the group number `$1`.
   */
  predicate LiteralReplacement(newName: string)
  {
    (forall k :: 0 <= k < |newName| ==> newName[k] != '$') && (newName == [] || !IsDigit(newName[0]))
  }

  /** `\bnamespace` at position i. */
  predicate KeywordAt(s: string, i: nat)
  {
    i + |Keyword| <= |s| && s[i..i + |Keyword|] == Keyword && (i == 0 || !IsWordChar(s[i - 1]))
  }

  predicate AllWhitespace(s: string, a: nat, b: nat)
    requires a <= b <= |s|
  {
    forall t :: a <= t < b ==> IsWhitespace(s[t])
  }

  predicate AllWordOrDot(s: string, a: nat, b: nat)
    requires a <= b <= |s|
  {
    forall t :: a <= t < b ==> IsWordChar(s[t]) || s[t] == '.'
  }

  /** The length of the longest run of whitespace starting at k (what a greedy `\s*` takes). */
  function WhitespaceRun(s: string, k: nat): (n: nat)
    requires k <= |s|
    ensures k + n <= |s| && AllWhitespace(s, k, k + n)
    ensures k + n == |s| || !IsWhitespace(s[k + n])
    decreases |s| - k
  {
    if k < |s| && IsWhitespace(s[k]) then 1 + WhitespaceRun(s, k + 1) else 0
  }

  /** The length of the longest run of `[\w.]` starting at k. */
  function WordOrDotRun(s: string, k: nat): (n: nat)
    requires k <= |s|
    ensures k + n <= |s| && AllWordOrDot(s, k, k + n)
    ensures k + n == |s| || !(IsWordChar(s[k + n]) || s[k + n] == '.')
    decreases |s| - k
  {
    if k < |s| && (IsWordChar(s[k]) || s[k] == '.') then 1 + WordOrDotRun(s, k + 1) else 0
  }

  /** Just past the last CR or LF in s[k..e], if there is one. */
  function LastLineBreakEnd(s: string, k: nat, e: nat): (r: Option<nat>)
    requires k <= e <= |s|
    ensures r.Some? ==> k < r.value <= e && IsLineBreak(s[r.value - 1])
    ensures r.Some? ==> forall t :: r.value <= t < e ==> !IsLineBreak(s[t])
    ensures r.None? ==> forall t :: k <= t < e ==> !IsLineBreak(s[t])
    decreases e - k
  {
    if e == k then None
    else if IsLineBreak(s[e - 1]) then Some(e)
    else LastLineBreakEnd(s, k, e - 1)
  }

  /**
   * Where `(\s*[\{\r\n]|\.|\s*$)` ends when tried at k. The first
   * alternative's `\s*` first takes the whole run of whitespace and then gives
   * characters back until a brace, CR or LF follows; `$` (without the
   * multiline option) only holds at the end of the input once the run of
   * whitespace has been taken.
   */
  function BlockTailEnd(s: string, k: nat): (r: Option<nat>)
    requires k <= |s|
    ensures r.Some? ==> k <= r.value <= |s|
  {
    var e := k + WhitespaceRun(s, k);
    if e < |s| && s[e] == '{' then Some(e + 1)
    else match LastLineBreakEnd(s, k, e)
      case Some(b) => Some(b)
      case None =>
        if k < |s| && s[k] == '.' then Some(k + 1)
        else if e == |s| then Some(e)
        else None
  }

  /** Where `(\.[\w.]*)?(\s*;)` ends when tried at k. */
  function FileScopedTailEnd(s: string, k: nat): (r: Option<nat>)
    requires k <= |s|
    ensures r.Some? ==> k < r.value <= |s| && s[r.value - 1] == ';'
  {
    var k2 := if k < |s| && s[k] == '.' then k + 1 + WordOrDotRun(s, k + 1) else k;
    var k3 := k2 + WhitespaceRun(s, k2);
    if k3 < |s| && s[k3] == ';' then Some(k3 + 1) else None
  }

  function TailEnd(rule: Rule, s: string, k: nat): (r: Option<nat>)
    requires k <= |s|
    ensures r.Some? ==> k <= r.value <= |s|
  {
    match rule
    case BlockScoped => BlockTailEnd(s, k)
    case FileScoped => FileScopedTailEnd(s, k)
  }

  /**
   * Where the identifier starts when `\bnamespace\s+` matches at i: after the
   * whole run of whitespace, since `\s+` is greedy and a valid old name cannot
   * take any of it back.
   */
  function IdentifierStart(s: string, i: nat): (r: Option<nat>)
    requires i <= |s|
    ensures r.Some? ==> KeywordAt(s, i) && i + |Keyword| < r.value <= |s|
    ensures r.Some? ==> AllWhitespace(s, i + |Keyword|, r.value)
    ensures r.Some? ==> r.value == |s| || !IsWhitespace(s[r.value])
  {
    if !KeywordAt(s, i) then None
    else
      var w := WhitespaceRun(s, i + |Keyword|);
      if w == 0 then None else Some(i + |Keyword| + w)
  }

  /** The match of the rule's pattern that starts at position i, if any. */
  function MatchAt(rule: Rule, s: string, oldName: string, i: nat): (r: Option<Match>)
    requires i <= |s|
    ensures r.Some? ==> FitsMatch(s, oldName, i, r.value)
  {
    match IdentifierStart(s, i)
    case None => None
    case Some(j) =>
      if j + |oldName| > |s| || s[j..j + |oldName|] != oldName then None
      else match TailEnd(rule, s, j + |oldName|)
        case None => None
        case Some(e) => Some(Match(j, e))
  }

  /** A match found at i lies in s after i, with oldName where the identifier is. */
  predicate FitsMatch(s: string, oldName: string, i: nat, m: Match)
  {
    i < m.idStart && m.idStart + |oldName| <= m.end <= |s|
    && s[m.idStart..m.idStart + |oldName|] == oldName
  }

  /** For each position of a text, the match a pattern has there. */
  type Matcher = nat -> Option<Match>

  ghost predicate SoundMatcher(find: Matcher, s: string, oldName: string)
  {
    forall i :: find(i).Some? ==> FitsMatch(s, oldName, i, find(i).value)
  }

  /** The matcher of one of the two rules on a text. */
  function RuleMatcher(rule: Rule, s: string, oldName: string): (find: Matcher)
    ensures SoundMatcher(find, s, oldName)
  {
    (i: nat) => if i <= |s| then MatchAt(rule, s, oldName, i) else None
  }

  /**
   * `Regex.Replace` from position i: non-overlapping matches, left to right,
   * each replaced by its captures with the identifier swapped for the new
   * name.
   */
  function ReplaceFrom(find: Matcher, s: string, oldName: string, newName: string, i: nat): string
    requires SoundMatcher(find, s, oldName) && i <= |s|
    decreases |s| - i
  {
    if i == |s| then ""
    else match find(i)
      case Some(m) =>
        s[i..m.idStart] + newName + s[m.idStart + |oldName|..m.end] + ReplaceFrom(find, s, oldName, newName, m.end)
      case None =>
        [s[i]] + ReplaceFrom(find, s, oldName, newName, i + 1)
  }

  /** The number of matches the replacement scan finds from position i. */
  function MatchCount(find: Matcher, s: string, oldName: string, i: nat): nat
    requires SoundMatcher(find, s, oldName) && i <= |s|
    decreases |s| - i
  {
    if i == |s| then 0
    else match find(i)
      case Some(m) => 1 + MatchCount(find, s, oldName, m.end)
      case None => MatchCount(find, s, oldName, i + 1)
  }

  /** `Regex.Replace(content, pattern, "$1" + newName + ...)` for one of the two rules. */
  function Replace(rule: Rule, content: string, oldName: string, newName: string): string
  {
    ReplaceFrom(RuleMatcher(rule, content, oldName), content, oldName, newName, 0)
  }

  /** How many declarations of the old name the rule rewrites in the text. */
  function Declarations(rule: Rule, content: string, oldName: string): nat
  {
    MatchCount(RuleMatcher(rule, content, oldName), content, oldName, 0)
  }

  /** The two rules in the source's order: the file-scoped rule runs on the block rule's output. */
  function RewriteNamespaces(content: string, oldName: string, newName: string): string
  {
    Replace(FileScoped, Replace(BlockScoped, content, oldName, newName), oldName, newName)
  }

  // ---------------------------------------------------------------------------
  // The scanner against the patterns
  // ---------------------------------------------------------------------------

  /** `(\s*[\{\r\n]|\.|\s*$)` can match at k, read as the pattern is written. */
  ghost predicate BlockTailMatches(s: string, k: nat)
    requires k <= |s|
  {
    (exists e :: k <= e < |s| && AllWhitespace(s, k, e) && (s[e] == '{' || IsLineBreak(s[e])))
    || (k < |s| && s[k] == '.')
    || AllWhitespace(s, k, |s|)
  }

  /** `(\.[\w.]*)?(\s*;)` can match at k, read as the pattern is written. */
  ghost predicate FileScopedTailMatches(s: string, k: nat)
    requires k <= |s|
  {
    exists k2, k3 ::
      k <= k2 <= k3 < |s|
      && (k2 == k || (s[k] == '.' && AllWordOrDot(s, k + 1, k2)))
      && AllWhitespace(s, k2, k3) && s[k3] == ';'
  }

  ghost predicate TailMatches(rule: Rule, s: string, k: nat)
    requires k <= |s|
  {
    match rule
    case BlockScoped => BlockTailMatches(s, k)
    case FileScoped => FileScopedTailMatches(s, k)
  }

  /** After `\bnamespace` at i, `\s+` reaches j, the identifier follows, and then the rule's tail. */
  ghost predicate MatchesWithIdentifierAt(rule: Rule, s: string, oldName: string, i: nat, j: nat)
  {
    KeywordAt(s, i) && i + |Keyword| < j && j + |oldName| <= |s|
    && AllWhitespace(s, i + |Keyword|, j)
    && s[j..j + |oldName|] == oldName
    && TailMatches(rule, s, j + |oldName|)
  }

  /** The rule's whole pattern can match at position i. */
  ghost predicate RegexMatchesAt(rule: Rule, s: string, oldName: string, i: nat)
  {
    exists j :: MatchesWithIdentifierAt(rule, s, oldName, i, j)
  }

  lemma BlockTailEndIsTailMatch(s: string, k: nat)
    requires k <= |s|
    ensures BlockTailEnd(s, k).Some? <==> BlockTailMatches(s, k)
  {
    var e := k + WhitespaceRun(s, k);
    if BlockTailMatches(s, k) && !(e < |s| && s[e] == '{') {
      if exists e' :: k <= e' < |s| && AllWhitespace(s, k, e') && (s[e'] == '{' || IsLineBreak(s[e'])) {
        var e' :| k <= e' < |s| && AllWhitespace(s, k, e') && (s[e'] == '{' || IsLineBreak(s[e']));
        assert e' <= e;
        assert e' != e;
        assert LastLineBreakEnd(s, k, e).Some?;
      }
    }
    if BlockTailEnd(s, k).Some? {
      if e < |s| && s[e] == '{' {
        assert AllWhitespace(s, k, e);
      } else if LastLineBreakEnd(s, k, e).Some? {
        var b := LastLineBreakEnd(s, k, e).value;
        assert AllWhitespace(s, k, b - 1);
      }
    }
  }

  lemma FileScopedTailEndIsTailMatch(s: string, k: nat)
    requires k <= |s|
    ensures FileScopedTailEnd(s, k).Some? <==> FileScopedTailMatches(s, k)
  {
    var dotted := k < |s| && s[k] == '.';
    var k2 := if dotted then k + 1 + WordOrDotRun(s, k + 1) else k;
    var k3 := k2 + WhitespaceRun(s, k2);
    if FileScopedTailEnd(s, k).Some? {
      assert k <= k2 <= k3 < |s| && AllWhitespace(s, k2, k3) && s[k3] == ';';
    }
    if FileScopedTailMatches(s, k) {
      var a, b :| k <= a <= b < |s|
                  && (a == k || (s[k] == '.' && AllWordOrDot(s, k + 1, a)))
                  && AllWhitespace(s, a, b) && s[b] == ';';
      // s[a] is whitespace or the semicolon, never a word character or a dot
      assert IsWhitespace(s[a]) || s[a] == ';';
      if dotted {
        assert a != k;
      }
      assert a == k2;
      assert b == k3;
    }
  }

  /** `\s+` followed by a valid old name can only end where the run of whitespace ends. */
  lemma IdentifierStartIsDeterminate(s: string, oldName: string, i: nat, j: nat)
    requires ValidOldName(oldName) && KeywordAt(s, i)
    requires i + |Keyword| < j && j + |oldName| <= |s|
    requires AllWhitespace(s, i + |Keyword|, j) && s[j..j + |oldName|] == oldName
    ensures IdentifierStart(s, i) == Some(j)
  {
    var e := i + |Keyword| + WhitespaceRun(s, i + |Keyword|);
    assert s[j] == oldName[0];
    assert e == j;
  }

  /** Every match the scanner reports is a match of the regular expression. */
  lemma MatchAtIsSound(rule: Rule, s: string, oldName: string, i: nat)
    requires i <= |s|
    requires MatchAt(rule, s, oldName, i).Some?
    ensures RegexMatchesAt(rule, s, oldName, i)
  {
    var j := IdentifierStart(s, i).value;
    var k := j + |oldName|;
    assert TailEnd(rule, s, k).Some?;
    match rule {
      case BlockScoped => BlockTailEndIsTailMatch(s, k);
      case FileScoped => FileScopedTailEndIsTailMatch(s, k);
    }
    assert MatchesWithIdentifierAt(rule, s, oldName, i, j);
  }

  /** Wherever the regular expression can match, the scanner finds the match. */
  lemma MatchAtIsComplete(rule: Rule, s: string, oldName: string, i: nat)
    requires i <= |s| && ValidOldName(oldName)
    requires RegexMatchesAt(rule, s, oldName, i)
    ensures MatchAt(rule, s, oldName, i).Some?
  {
    var j: nat :| MatchesWithIdentifierAt(rule, s, oldName, i, j);
    IdentifierStartIsDeterminate(s, oldName, i, j);
    var k := j + |oldName|;
    assert TailMatches(rule, s, k);
    match rule {
      case BlockScoped =>
        BlockTailEndIsTailMatch(s, k);
        MatchAtFromParts(rule, s, oldName, i, j);
      case FileScoped =>
        FileScopedTailEndIsTailMatch(s, k);
        MatchAtFromParts(rule, s, oldName, i, j);
    }
  }

  /** The scanner matches at i once the identifier and the tail are both found. */
  lemma MatchAtFromParts(rule: Rule, s: string, oldName: string, i: nat, j: nat)
    requires i <= |s| && IdentifierStart(s, i) == Some(j)
    requires j + |oldName| <= |s| && s[j..j + |oldName|] == oldName
    requires TailEnd(rule, s, j + |oldName|).Some?
    ensures MatchAt(rule, s, oldName, i).Some?
  {
  }

  /**
   * The scanner finds a match at i exactly when the regular expression can
   * match there.
   */
  lemma MatchAtIsRegexMatch(rule: Rule, s: string, oldName: string, i: nat)
    requires i <= |s| && ValidOldName(oldName)
    ensures MatchAt(rule, s, oldName, i).Some? <==> RegexMatchesAt(rule, s, oldName, i)
  {
    if MatchAt(rule, s, oldName, i).Some? {
      MatchAtIsSound(rule, s, oldName, i);
    }
    if RegexMatchesAt(rule, s, oldName, i) {
      MatchAtIsComplete(rule, s, oldName, i);
    }
  }

  /**
   * Word boundaries: a match never starts inside a longer word, and the
   * matched identifier is never followed by a letter, digit or underscore,
   * so `namespace OldName` is not a declaration of `Old`.
   */
  lemma MatchedNameIsWholeWord(rule: Rule, s: string, oldName: string, i: nat)
    requires i <= |s|
    requires MatchAt(rule, s, oldName, i).Some?
    ensures i == 0 || !IsWordChar(s[i - 1])
    ensures var k := MatchAt(rule, s, oldName, i).value.idStart + |oldName|;
            k == |s| || !IsWordChar(s[k])
  {
    var m := MatchAt(rule, s, oldName, i).value;
    var k := m.idStart + |oldName|;
    if rule == BlockScoped && k < |s| {
      var e := k + WhitespaceRun(s, k);
      if !IsWhitespace(s[k]) {
        assert e == k;
      }
    }
  }

  // ---------------------------------------------------------------------------
  // What a replacement pass does to the text
  // ---------------------------------------------------------------------------

  lemma SplitAt(s: string, i: nat, a: nat)
    requires i <= a <= |s|
    ensures s[i..] == s[i..a] + s[a..]
  {
  }

  lemma SplitAround(s: string, i: nat, a: nat, b: nat, c: nat)
    requires i <= a <= b <= c <= |s|
    ensures s[i..] == s[i..a] + s[a..b] + s[b..c] + s[c..]
  {
  }

  /** One step of the scan where the pattern matches. */
  lemma StepAtMatch(find: Matcher, s: string, oldName: string, newName: string, i: nat)
    requires SoundMatcher(find, s, oldName) && i < |s| && find(i).Some?
    ensures var m := find(i).value;
            ReplaceFrom(find, s, oldName, newName, i)
            == s[i..m.idStart] + newName + s[m.idStart + |oldName|..m.end]
               + ReplaceFrom(find, s, oldName, newName, m.end)
    ensures MatchCount(find, s, oldName, i) == 1 + MatchCount(find, s, oldName, find(i).value.end)
  {
  }

  /** One step of the scan where the pattern does not match. */
  lemma StepWithoutMatch(find: Matcher, s: string, oldName: string, newName: string, i: nat)
    requires SoundMatcher(find, s, oldName) && i < |s| && find(i).None?
    ensures ReplaceFrom(find, s, oldName, newName, i) == [s[i]] + ReplaceFrom(find, s, oldName, newName, i + 1)
    ensures MatchCount(find, s, oldName, i) == MatchCount(find, s, oldName, i + 1)
  {
  }

  /** The length of one step of the scan where the pattern matches. */
  lemma LengthAtMatch(find: Matcher, s: string, oldName: string, newName: string, i: nat)
    requires SoundMatcher(find, s, oldName) && i < |s| && find(i).Some?
    ensures var m := find(i).value;
            |ReplaceFrom(find, s, oldName, newName, i)|
            == m.end - i + |newName| - |oldName| + |ReplaceFrom(find, s, oldName, newName, m.end)|
    ensures MatchCount(find, s, oldName, i) == 1 + MatchCount(find, s, oldName, find(i).value.end)
  {
  }

  /** The length of one step of the scan where the pattern does not match. */
  lemma LengthWithoutMatch(find: Matcher, s: string, oldName: string, newName: string, i: nat)
    requires SoundMatcher(find, s, oldName) && i < |s| && find(i).None?
    ensures |ReplaceFrom(find, s, oldName, newName, i)| == 1 + |ReplaceFrom(find, s, oldName, newName, i + 1)|
    ensures MatchCount(find, s, oldName, i) == MatchCount(find, s, oldName, i + 1)
  {
  }

  /** The arithmetic of one matching step of `ReplaceLength`. */
  lemma LengthArithmetic(total: int, rest: int, n: int, i: int, end: int, c: int, d: int)
    requires rest == n - end + c * d
    requires total == end - i + d + rest
    ensures total == n - i + (1 + c) * d
  {
    assert (1 + c) * d == d + c * d;
  }

  /** A text is its pieces put back together. */
  lemma Reassemble(s: string, i: nat, a: nat, b: nat, e: nat, middle: string, rest: string)
    requires i <= a <= b <= e <= |s|
    requires s[a..b] == middle && rest == s[e..]
    ensures s[i..a] + middle + s[b..e] + rest == s[i..]
  {
    SplitAround(s, i, a, b, e);
  }

  lemma ReassembleFirst(s: string, i: nat, rest: string)
    requires i < |s| && rest == s[i + 1..]
    ensures [s[i]] + rest == s[i..]
  {
    SplitAt(s, i, i + 1);
  }

  /** Replacing a name by itself gives the text back. */
  lemma {:induction false} ReplaceWithSameName(find: Matcher, s: string, oldName: string, i: nat)
    requires SoundMatcher(find, s, oldName) && i <= |s|
    ensures ReplaceFrom(find, s, oldName, oldName, i) == s[i..]
    decreases |s| - i
  {
    if i < |s| {
      if find(i).Some? {
        var m := find(i).value;
        ReplaceWithSameName(find, s, oldName, m.end);
        StepAtMatch(find, s, oldName, oldName, i);
        Reassemble(s, i, m.idStart, m.idStart + |oldName|, m.end, oldName, ReplaceFrom(find, s, oldName, oldName, m.end));
      } else {
        ReplaceWithSameName(find, s, oldName, i + 1);
        StepWithoutMatch(find, s, oldName, oldName, i);
        ReassembleFirst(s, i, ReplaceFrom(find, s, oldName, oldName, i + 1));
      }
    }
  }

  /** Without a match the text is left as it is. */
  lemma {:induction false} ReplaceWithoutMatch(find: Matcher, s: string, oldName: string, newName: string, i: nat)
    requires SoundMatcher(find, s, oldName) && i <= |s|
    requires MatchCount(find, s, oldName, i) == 0
    ensures ReplaceFrom(find, s, oldName, newName, i) == s[i..]
    decreases |s| - i
  {
    if i < |s| {
      if find(i).Some? {
        StepAtMatch(find, s, oldName, newName, i);
      } else {
        StepWithoutMatch(find, s, oldName, newName, i);
        ReplaceWithoutMatch(find, s, oldName, newName, i + 1);
        SplitAt(s, i, i + 1);
      }
    }
  }

  /** Each match changes the length by the difference between the names. */
  lemma {:induction false} ReplaceLength(find: Matcher, s: string, oldName: string, newName: string, i: nat)
    requires SoundMatcher(find, s, oldName) && i <= |s|
    ensures |ReplaceFrom(find, s, oldName, newName, i)|
            == |s| - i + MatchCount(find, s, oldName, i) * (|newName| - |oldName|)
    decreases |s| - i
  {
    if i < |s| {
      if find(i).Some? {
        var m := find(i).value;
        ReplaceLength(find, s, oldName, newName, m.end);
        LengthAtMatch(find, s, oldName, newName, i);
        LengthArithmetic(|ReplaceFrom(find, s, oldName, newName, i)|, |ReplaceFrom(find, s, oldName, newName, m.end)|,
                         |s|, i, m.end, MatchCount(find, s, oldName, m.end), |newName| - |oldName|);
      } else {
        ReplaceLength(find, s, oldName, newName, i + 1);
        LengthWithoutMatch(find, s, oldName, newName, i);
        var c := MatchCount(find, s, oldName, i);
        assert |ReplaceFrom(find, s, oldName, newName, i + 1)| == |s| - (i + 1) + c * (|newName| - |oldName|);
      }
    }
  }

  /** A position where two different texts of one length differ. */
  lemma DifferAt(a: string, b: string) returns (t: nat)
    requires |a| == |b| && a != b
    ensures t < |a| && a[t] != b[t]
  {
    t :| 0 <= t < |a| && a[t] != b[t];
  }

  lemma IndexPastPrefix(prefix: string, middle: string, rest: string, t: nat)
    requires t < |middle|
    ensures (prefix + middle + rest)[|prefix| + t] == middle[t]
  {
  }

  /** With two different names of one length, any match changes the text. */
  lemma {:induction false} ReplaceDiffers(find: Matcher, s: string, oldName: string, newName: string, i: nat)
    requires SoundMatcher(find, s, oldName) && i <= |s|
    requires |oldName| == |newName| && oldName != newName
    requires MatchCount(find, s, oldName, i) > 0
    ensures ReplaceFrom(find, s, oldName, newName, i) != s[i..]
    decreases |s| - i
  {
    if find(i).Some? {
      var m := find(i).value;
      StepAtMatch(find, s, oldName, newName, i);
      var t := DifferAt(oldName, newName);
      var prefix := s[i..m.idStart];
      IndexPastPrefix(prefix, newName, s[m.idStart + |oldName|..m.end] + ReplaceFrom(find, s, oldName, newName, m.end), t);
      SplitAround(s, i, m.idStart, m.idStart + |oldName|, m.end);
      IndexPastPrefix(prefix, oldName, s[m.idStart + |oldName|..m.end] + s[m.end..], t);
    } else {
      StepWithoutMatch(find, s, oldName, newName, i);
      ReplaceDiffers(find, s, oldName, newName, i + 1);
      SplitAt(s, i, i + 1);
      assert s[i..] == [s[i]] + s[i + 1..];
    }
  }

  /**
   * A pass leaves the text unchanged exactly when the names are equal or
   * the pattern does not match anywhere.
   */
  lemma ReplaceChangesIff(find: Matcher, s: string, oldName: string, newName: string, i: nat)
    requires SoundMatcher(find, s, oldName) && i <= |s|
    ensures ReplaceFrom(find, s, oldName, newName, i) == s[i..]
            <==> oldName == newName || MatchCount(find, s, oldName, i) == 0
  {
    if oldName == newName {
      ReplaceWithSameName(find, s, oldName, i);
    } else if MatchCount(find, s, oldName, i) == 0 {
      ReplaceWithoutMatch(find, s, oldName, newName, i);
    } else if |oldName| != |newName| {
      ReplaceLength(find, s, oldName, newName, i);
      NonzeroProduct(MatchCount(find, s, oldName, i), |newName| - |oldName|);
      assert |ReplaceFrom(find, s, oldName, newName, i)| != |s[i..]|;
    } else {
      ReplaceDiffers(find, s, oldName, newName, i);
    }
  }

  /** A text with no declaration of either form is not touched by the two rules. */
  lemma UntouchedWithoutDeclarations(content: string, oldName: string, newName: string)
    requires Declarations(BlockScoped, content, oldName) == 0
    requires Declarations(FileScoped, content, oldName) == 0
    ensures RewriteNamespaces(content, oldName, newName) == content
  {
    ReplaceWithoutMatch(RuleMatcher(BlockScoped, content, oldName), content, oldName, newName, 0);
    ReplaceWithoutMatch(RuleMatcher(FileScoped, content, oldName), content, oldName, newName, 0);
  }

  /** Renaming a namespace to itself leaves every text as it is. */
  lemma RewriteWithSameName(content: string, name: string)
    ensures RewriteNamespaces(content, name, name) == content
  {
    ReplaceWithSameName(RuleMatcher(BlockScoped, content, name), content, name, 0);
    ReplaceWithSameName(RuleMatcher(FileScoped, content, name), content, name, 0);
  }

  /** Near the end of the text there is no room for `namespace`, so nothing more changes. */
  lemma {:induction false} ReplaceNearEnd(rule: Rule, s: string, oldName: string, newName: string, i: nat)
    requires i <= |s| < i + |Keyword|
    ensures ReplaceFrom(RuleMatcher(rule, s, oldName), s, oldName, newName, i) == s[i..]
    ensures MatchCount(RuleMatcher(rule, s, oldName), s, oldName, i) == 0
    decreases |s| - i
  {
    var find := RuleMatcher(rule, s, oldName);
    if i < |s| {
      assert find(i).None?;
      StepWithoutMatch(find, s, oldName, newName, i);
      ReplaceNearEnd(rule, s, oldName, newName, i + 1);
      SplitAt(s, i, i + 1);
    }
  }

  /** A run of `[\w.]` that cannot be extended is the one the greedy quantifier takes. */
  lemma WordOrDotRunIs(s: string, k: nat, e: nat)
    requires k <= e <= |s| && AllWordOrDot(s, k, e)
    requires e == |s| || !(IsWordChar(s[e]) || s[e] == '.')
    ensures WordOrDotRun(s, k) == e - k
  {
  }

  const DottedDeclaration: string := "namespace A.B;"
  const OnceRewritten: string := "namespace A.C.B;"
  const TwiceRewritten: string := "namespace A.C.C.B;"

  /** `namespace` followed by one space opens both example texts. */
  lemma ExampleIdentifierStart(s: string)
    requires |s| > 11 && s[..10] == "namespace " && s[10] == 'A'
    ensures IdentifierStart(s, 0) == Some(10)
  {
    assert s[..9] == Keyword;
    assert WhitespaceRun(s, 10) == 0;
  }

  lemma BlockMatchInDottedDeclaration()
    ensures MatchAt(BlockScoped, DottedDeclaration, "A", 0) == Some(Match(10, 12))
  {
    var s := DottedDeclaration;
    ExampleIdentifierStart(s);
    assert s[10..11] == "A";
    assert WhitespaceRun(s, 11) == 0;
  }

  lemma FileScopedMatchInRewrittenDeclaration()
    ensures MatchAt(FileScoped, OnceRewritten, "A", 0) == Some(Match(10, 16))
  {
    var t := OnceRewritten;
    ExampleIdentifierStart(t);
    assert t[10..11] == "A";
    WordOrDotRunIs(t, 12, 15);
    assert WhitespaceRun(t, 15) == 0;
  }

  /** The block rule turns `namespace A.B;` into `namespace A.C.B;`. */
  lemma BlockRuleOnDottedDeclaration()
    ensures Replace(BlockScoped, DottedDeclaration, "A", "A.C") == OnceRewritten
  {
    var find := RuleMatcher(BlockScoped, DottedDeclaration, "A");
    BlockMatchInDottedDeclaration();
    assert find(0) == Some(Match(10, 12));
    StepAtMatch(find, DottedDeclaration, "A", "A.C", 0);
    ReplaceNearEnd(BlockScoped, DottedDeclaration, "A", "A.C", 12);
  }

  /** The file-scoped rule then finds `A` again and turns it into `A.C`. */
  lemma FileScopedRuleOnRewrittenDeclaration()
    ensures Replace(FileScoped, OnceRewritten, "A", "A.C") == TwiceRewritten
  {
    var find := RuleMatcher(FileScoped, OnceRewritten, "A");
    FileScopedMatchInRewrittenDeclaration();
    assert find(0) == Some(Match(10, 16));
    StepAtMatch(find, OnceRewritten, "A", "A.C", 0);
    ReplaceNearEnd(FileScoped, OnceRewritten, "A", "A.C", 16);
  }

  /**
   * The rules run one after the other, so a declaration can be rewritten
   * twice: when the new name starts with the old name and a dot, the
   * file-scoped rule finds the old name again in the block rule's output.
   */
  lemma NewNameExtendingOldIsRewrittenTwice()
    ensures RewriteNamespaces(DottedDeclaration, "A", "A.C") == TwiceRewritten
  {
    BlockRuleOnDottedDeclaration();
    FileScopedRuleOnRewrittenDeclaration();
  }

  /** How many declarations the two passes rewrite, the second counted on the first one's output. */
  function RewriteCount(content: string, oldName: string, newName: string): nat
  {
    Declarations(BlockScoped, content, oldName)
    + Declarations(FileScoped, Replace(BlockScoped, content, oldName, newName), oldName)
  }

  /** Every rewritten declaration changes the length by the difference between the names. */
  lemma RewriteLength(content: string, oldName: string, newName: string)
    ensures |RewriteNamespaces(content, oldName, newName)|
            == |content| + RewriteCount(content, oldName, newName) * (|newName| - |oldName|)
  {
    var first := Replace(BlockScoped, content, oldName, newName);
    ReplaceLength(RuleMatcher(BlockScoped, content, oldName), content, oldName, newName, 0);
    ReplaceLength(RuleMatcher(FileScoped, first, oldName), first, oldName, newName, 0);
    var c1 := Declarations(BlockScoped, content, oldName);
    var c2 := Declarations(FileScoped, first, oldName);
    Distribute2(c1, c2, |newName| - |oldName|);
  }

  lemma Distribute2(a: int, b: int, d: int)
    ensures (a + b) * d == a * d + b * d
  {
  }

  /**
   * When the two names differ in length, the text changes exactly when some
   * declaration is rewritten. The length is what tells the two apart: with
   * names of equal length the second pass rewrites the first pass's output,
   * so a single pass's `ReplaceChangesIff` is the statement that holds there.
   */
  lemma RewriteChangesIff(content: string, oldName: string, newName: string)
    requires |oldName| != |newName|
    ensures RewriteNamespaces(content, oldName, newName) != content
            <==> RewriteCount(content, oldName, newName) > 0
  {
    RewriteLength(content, oldName, newName);
    var c := RewriteCount(content, oldName, newName);
    if c > 0 {
      NonzeroProduct(c, |newName| - |oldName|);
    }
    if c == 0 {
      UntouchedWithoutRewrites(content, oldName, newName);
    }
  }

  lemma NonzeroProduct(c: int, d: int)
    requires c > 0 && d != 0
    ensures c * d != 0
  {
  }

  /** No rewritten declaration means no change. */
  lemma UntouchedWithoutRewrites(content: string, oldName: string, newName: string)
    requires RewriteCount(content, oldName, newName) == 0
    ensures RewriteNamespaces(content, oldName, newName) == content
  {
    ReplaceWithoutMatch(RuleMatcher(BlockScoped, content, oldName), content, oldName, newName, 0);
    var first := Replace(BlockScoped, content, oldName, newName);
    ReplaceWithoutMatch(RuleMatcher(FileScoped, first, oldName), first, oldName, newName, 0);
  }

  // ---------------------------------------------------------------------------
  // Updating files
  // ---------------------------------------------------------------------------

  /** A source file as read: its bytes (for the signature) and its decoded text. */
  datatype SourceFile = SourceFile(data: seq<byte>, content: string)

  /** A `File.WriteAllText` call: the text and the encoding it is written in. */
  datatype Write = Write(encoding: TextEncoding, content: string)

  /** What updating one file writes, if anything: the rewritten text, in the file's own encoding. */
  function FileUpdate(file: SourceFile, oldName: string, newName: string): Option<Write>
  {
    var content := RewriteNamespaces(file.content, oldName, newName);
    if content != file.content then Some(Write(DetectEncoding(file.data), content)) else None
  }

  /**
   * `UpdateNamespacesInFile`: rewrite the declarations and write the file
   * back in its own encoding, but only when the text changed.
   */
  method UpdateNamespacesInFile(file: SourceFile, oldName: string, newName: string)
    returns (modified: bool, written: Option<Write>)
    requires ValidOldName(oldName) && LiteralReplacement(newName)
    ensures written == FileUpdate(file, oldName, newName)
    ensures modified <==> written.Some?
  {
    var encoding := DetectEncoding(file.data);
    var content := file.content;
    content := Replace(BlockScoped, content, oldName, newName);
    content := Replace(FileScoped, content, oldName, newName);
    if content != file.content {
      modified, written := true, Some(Write(encoding, content));
    } else {
      modified, written := false, None;
    }
  }

  /** Renaming a namespace to itself writes nothing. */
  lemma FileUpdateWithSameName(file: SourceFile, name: string)
    ensures FileUpdate(file, name, name) == None
  {
    RewriteWithSameName(file.content, name);
  }

  /** A file without a declaration the rules rewrite is not written. */
  lemma FileUpdateWithoutDeclarations(file: SourceFile, oldName: string, newName: string)
    requires RewriteCount(file.content, oldName, newName) == 0
    ensures FileUpdate(file, oldName, newName) == None
  {
    UntouchedWithoutRewrites(file.content, oldName, newName);
  }

  /**
   * When the names differ in length, a file is written exactly when some
   * declaration in it is rewritten, and it is written in the encoding its
   * signature was read as. For any names, `FileUpdate` itself writes exactly
   * when the text changed; the length condition is `RewriteChangesIff`'s.
   */
  lemma FileUpdateWritesRewrites(file: SourceFile, oldName: string, newName: string)
    requires |oldName| != |newName|
    ensures FileUpdate(file, oldName, newName).Some? <==> RewriteCount(file.content, oldName, newName) > 0
    ensures FileUpdate(file, oldName, newName).Some? ==>
              FileUpdate(file, oldName, newName).value.encoding == DetectEncoding(file.data)
  {
    RewriteChangesIff(file.content, oldName, newName);
  }

  /** The number of files that were written back. */
  function WrittenCount(written: seq<Option<Write>>): (n: nat)
    ensures n <= |written|
  {
    if written == [] then 0
    else WrittenCount(written[..|written| - 1]) + (if written[|written| - 1].Some? then 1 else 0)
  }

  lemma WrittenCountAppend(written: seq<Option<Write>>, w: Option<Write>)
    ensures WrittenCount(written + [w]) == WrittenCount(written) + if w.Some? then 1 else 0
  {
    assert (written + [w])[..|written|] == written;
  }

  lemma PrefixExtends<T>(s: seq<T>, k: nat)
    requires k < |s|
    ensures s[..k] + [s[k]] == s[..k + 1]
  {
  }

  /**
   * `UpdateNamespacesInProject`: nothing when the project path has no
   * directory; otherwise every `.cs` file below the directory (given here as
   * `files`, in enumeration order) is updated, and the result counts the
   * files that were written back.
   */
  method UpdateNamespacesInProject(projectFilePath: Paths.Path, files: seq<SourceFile>, oldName: string, newName: string)
    returns (count: nat, written: seq<Option<Write>>)
    requires projectFilePath != []
    requires ValidOldName(oldName) && LiteralReplacement(newName)
    ensures |projectFilePath| == 1 ==> written == []
    ensures |projectFilePath| > 1 ==> |written| == |files|
    ensures forall k :: 0 <= k < |written| ==> written[k] == FileUpdate(files[k], oldName, newName)
    ensures count == WrittenCount(written)
  {
    if |Paths.DirectoryName(projectFilePath)| == 0 {
      return 0, [];
    }
    ghost var updates := seq(|files|, k requires 0 <= k < |files| => FileUpdate(files[k], oldName, newName));
    count, written := 0, [];
    for k := 0 to |files|
      invariant written == updates[..k]
      invariant count == WrittenCount(written)
    {
      var modified, w := UpdateNamespacesInFile(files[k], oldName, newName);
      assert w == updates[k];
      PrefixExtends(updates, k);
      WrittenCountAppend(written, w);
      if modified {
        count := count + 1;
      }
      written := written + [w];
    }
    assert written == updates;
  }

  /** Renaming to the same name writes no file, so the count is zero. */
  lemma {:induction false} NoFileWrittenWithSameName(files: seq<SourceFile>, name: string, written: seq<Option<Write>>)
    requires |written| <= |files|
    requires forall k :: 0 <= k < |written| ==> written[k] == FileUpdate(files[k], name, name)
    ensures WrittenCount(written) == 0
  {
    if written != [] {
      NoFileWrittenWithSameName(files, name, written[..|written| - 1]);
      FileUpdateWithSameName(files[|written| - 1], name);
    }
  }
}
