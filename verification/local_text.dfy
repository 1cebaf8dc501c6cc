/** The string operations the local-check parser of
    cmk/base/plugins/agent_based/local.py builds on, with Python's semantics: `str.split`
    with and without a limit, `str.join`, `str.rstrip` of one character, the escaped-newline
    replacement, the summary/details split of `check_local`, and `_labelify`. */
module LocalText {

  // ---------------------------------------------------------------- split and join

  /** The position of the first `c` in `s`. */
  function IndexOf(s: string, c: char): (i: nat)
    requires c in s
    ensures i < |s| && s[i] == c && c !in s[..i]
  {
    if s[0] == c then 0
    else
      assert c in s[1..] by {
        var k :| 0 <= k < |s| && s[k] == c;
        assert s[1..][k - 1] == c;
      }
      var i := IndexOf(s[1..], c) + 1;
      assert s[..i] == [s[0]] + s[1..][..i - 1];
      i
  }

  /** `s.split(c)`: the pieces between the occurrences of `c` (one piece when there is none). */
  function Split(s: string, c: char): (r: seq<string>)
    ensures |r| >= 1
    decreases |s|
  {
    if c !in s then [s]
    else
      var i := IndexOf(s, c);
      [s[..i]] + Split(s[i + 1..], c)
  }

  /** `sep.join(parts)`. */
  function Join(parts: seq<string>, sep: string): string
  {
    if parts == [] then ""
    else if |parts| == 1 then parts[0]
    else parts[0] + sep + Join(parts[1..], sep)
  }

  /** Joining the pieces with the separator gives back the string. */
  lemma {:induction false} JoinSplit(s: string, c: char)
    ensures Join(Split(s, c), [c]) == s
    decreases |s|
  {
    if c in s {
      var i := IndexOf(s, c);
      JoinSplit(s[i + 1..], c);
      JoinCons(s[..i], Split(s[i + 1..], c), [c]);
      assert s == s[..i] + [c] + s[i + 1..];
    }
  }

  lemma JoinCons(p: string, rest: seq<string>, sep: string)
    requires |rest| >= 1
    ensures Join([p] + rest, sep) == p + sep + Join(rest, sep)
  {
    assert ([p] + rest)[1..] == rest;
  }

  /** No piece contains the separator. */
  lemma {:induction false} SplitPiecesFree(s: string, c: char)
    ensures forall k | 0 <= k < |Split(s, c)| :: c !in Split(s, c)[k]
    decreases |s|
  {
    if c in s {
      var i := IndexOf(s, c);
      SplitPiecesFree(s[i + 1..], c);
    }
  }

  /** Splitting pieces joined by a separator they do not contain gives back the pieces. */
  lemma {:induction false} SplitJoin(parts: seq<string>, c: char)
    requires |parts| >= 1
    requires forall k | 0 <= k < |parts| :: c !in parts[k]
    ensures Split(Join(parts, [c]), c) == parts
  {
    if |parts| > 1 {
      var s := Join(parts, [c]);
      assert s == parts[0] + [c] + Join(parts[1..], [c]);
      assert s[..|parts[0]|] == parts[0];
      assert s[|parts[0]|] == c;
      assert c in s;
      assert IndexOf(s, c) == |parts[0]|;
      assert s[|parts[0]| + 1..] == Join(parts[1..], [c]);
      SplitJoin(parts[1..], c);
    }
  }

  /** `s.split(c, 1)`: the text before the first `c` and the rest, or `[s]` without a `c`. */
  function SplitOnce(s: string, c: char): (r: seq<string>)
    ensures c in s ==> |r| == 2 && c !in r[0] && r[0] + [c] + r[1] == s
    ensures c !in s ==> r == [s]
  {
    if c in s then
      var i := IndexOf(s, c);
      assert s == s[..i] + [c] + s[i + 1..];
      [s[..i], s[i + 1..]]
    else [s]
  }

  /** The text before the first separator and the rest come back from `s.split(c, 1)`. */
  lemma SplitOnceAt(a: string, c: char, b: string)
    requires c !in a
    ensures SplitOnce(a + [c] + b, c) == [a, b]
  {
    var s := a + [c] + b;
    assert s[|a|] == c;
    assert s[..|a|] == a && s[|a| + 1..] == b;
  }

  /** `s.rstrip(c)`. */
  function RStrip(s: string, c: char): (r: string)
    ensures |r| <= |s| && r == s[..|r|]
    ensures r == [] || r[|r| - 1] != c
    ensures forall k | |r| <= k < |s| :: s[k] == c
  {
    if s != [] && s[|s| - 1] == c then
      var r := RStrip(s[..|s| - 1], c);
      assert s[..|s| - 1][..|r|] == s[..|r|];
      r
    else s
  }

  // ---------------------------------------------------------------- newlines

  /** `s.replace("\\n", "\n")`: every backslash followed by `n`, scanned left to right, becomes
      a newline. */
  function UnescapeNewlines(s: string): (r: string)
    ensures |r| <= |s|
  {
    if |s| >= 2 && s[0] == '\\' && s[1] == 'n' then "\n" + UnescapeNewlines(s[2..])
    else if s == [] then []
    else [s[0]] + UnescapeNewlines(s[1..])
  }

  /** No backslash is directly followed by `n`. */
  predicate NoEscapedNewline(s: string)
  {
    forall k | 0 <= k < |s| - 1 :: !(s[k] == '\\' && s[k + 1] == 'n')
  }

  /** No escaped newline survives the replacement. */
  lemma {:induction false} NoEscapedNewlineLeft(s: string)
    ensures NoEscapedNewline(UnescapeNewlines(s))
  {
    var r := UnescapeNewlines(s);
    if |s| >= 2 && s[0] == '\\' && s[1] == 'n' {
      var tail := UnescapeNewlines(s[2..]);
      NoEscapedNewlineLeft(s[2..]);
      assert r == "\n" + tail;
      forall k | 0 <= k < |r| - 1 ensures !(r[k] == '\\' && r[k + 1] == 'n') {
        if k > 0 {
          assert r[k] == tail[k - 1] && r[k + 1] == tail[k];
        }
      }
    } else if s != [] {
      var tail := UnescapeNewlines(s[1..]);
      NoEscapedNewlineLeft(s[1..]);
      assert r == [s[0]] + tail;
      forall k | 0 <= k < |r| - 1 ensures !(r[k] == '\\' && r[k + 1] == 'n') {
        if k == 0 && s[0] == '\\' {
          assert r[1] == tail[0];
          UnescapeHead(s[1..]);
        } else if k > 0 {
          assert r[k] == tail[k - 1] && r[k + 1] == tail[k];
        }
      }
    }
  }

  /** The replacement never starts with `n` unless the input does. */
  lemma UnescapeHead(s: string)
    requires UnescapeNewlines(s) != []
    ensures UnescapeNewlines(s)[0] == 'n' ==> s[0] == 'n'
  {
  }

  /** A text without an escaped newline is left unchanged. */
  lemma {:induction false} UnescapeIdentity(s: string)
    requires NoEscapedNewline(s)
    ensures UnescapeNewlines(s) == s
  {
    if s != [] {
      UnescapeIdentity(s[1..]);
    }
  }

  /** `check_local`'s `text.split("\n", 1)`, falling back to the whole text and no details
      when there is no newline. */
  function SplitSummary(text: string): (string, string)
  {
    var parts := SplitOnce(text, '\n');
    if |parts| == 2 then (parts[0], parts[1]) else (text, "")
  }

  /** The summary is the first line, and summary, newline and details give back the text. */
  lemma SummaryDetails(text: string)
    ensures var (summary, details) := SplitSummary(text);
      '\n' !in summary &&
      ('\n' in text ==> summary + "\n" + details == text) &&
      ('\n' !in text ==> summary == text && details == "")
  {
  }

  // ---------------------------------------------------------------- labels

  /** Python's case and digit tests and case mappings, on ASCII characters. */
  predicate IsUpper(c: char) { 'A' <= c <= 'Z' }
  predicate IsLower(c: char) { 'a' <= c <= 'z' }
  predicate IsDigit(c: char) { '0' <= c <= '9' }

  function Lower(c: char): char
  {
    if IsUpper(c) then (c as int + 32) as char else c
  }

  function Upper(c: char): char
  {
    if IsLower(c) then (c as int - 32) as char else c
  }

  /** The characters `str.strip()` removes (Python's whitespace, by code point). */
  predicate IsSpace(c: char)
  {
    var n := c as int;
    n == 0x20 || 0x09 <= n <= 0x0d || 0x1c <= n <= 0x1f || n == 0x85 || n == 0xa0 || n == 0x1680 ||
    0x2000 <= n <= 0x200a || n == 0x2028 || n == 0x2029 || n == 0x202f || n == 0x205f || n == 0x3000
  }

  /** The number of whitespace characters `s` starts with. */
  function LeadingSpaces(s: string): (n: nat)
    ensures n <= |s| && forall k | 0 <= k < n :: IsSpace(s[k])
    ensures n < |s| ==> !IsSpace(s[n])
  {
    if s == [] || !IsSpace(s[0]) then 0 else 1 + LeadingSpaces(s[1..])
  }

  /** The length of `s` without its trailing whitespace. */
  function TrailingStart(s: string): (m: nat)
    ensures m <= |s| && forall k | m <= k < |s| :: IsSpace(s[k])
    ensures m > 0 ==> !IsSpace(s[m - 1])
  {
    if s == [] || !IsSpace(s[|s| - 1]) then |s| else TrailingStart(s[..|s| - 1])
  }

  /** `s.strip()`: `s` without leading and trailing whitespace. */
  function Strip(s: string): (r: string)
    ensures r == [] || (!IsSpace(r[0]) && !IsSpace(r[|r| - 1]))
    ensures LeadingSpaces(s) + |r| <= |s| && r == s[LeadingSpaces(s)..LeadingSpaces(s) + |r|]
    ensures forall k | LeadingSpaces(s) + |r| <= k < |s| :: IsSpace(s[k])
  {
    var n := LeadingSpaces(s);
    var m := TrailingStart(s[n..]);
    StrippedSlice(s, n, m);
    s[n..][..m]
  }

  /** Between the leading whitespace and the trailing whitespace of the rest. */
  lemma StrippedSlice(s: string, n: nat, m: nat)
    requires n <= |s| && m <= |s| - n
    requires forall k | m <= k < |s[n..]| :: IsSpace(s[n..][k])
    ensures s[n..][..m] == s[n..n + m]
    ensures forall k | n + m <= k < |s| :: IsSpace(s[k])
  {
    forall k | n + m <= k < |s| ensures IsSpace(s[k]) {
      assert s[k] == s[n..][k - n];
    }
  }

  /** Text without surrounding whitespace is left as it is. */
  lemma StripUntouched(s: string)
    requires s == [] || (!IsSpace(s[0]) && !IsSpace(s[|s| - 1]))
    ensures Strip(s) == s
  {
    assert LeadingSpaces(s) == 0 && s[0..] == s;
  }

  /** One trailing blank is removed. */
  lemma StripTrailingBlank(s: string)
    requires s != [] && !IsSpace(s[0]) && !IsSpace(s[|s| - 1])
    ensures Strip(s + " ") == s
  {
    var t := s + " ";
    assert LeadingSpaces(t) == 0 && t[0..] == t;
    assert t[..|t| - 1] == s;
  }

  /** `s.replace(a, b)` for single characters. */
  function ReplaceChar(s: string, a: char, b: char): (r: string)
    ensures |r| == |s|
  {
    seq(|s|, k requires 0 <= k < |s| => if s[k] == a then b else s[k])
  }

  /** What `ReplaceChar` means: a text without `a` is unchanged, no `a` is left (unless it is
      its own replacement), and the only changes turn an `a` into a `b`. */
  lemma ReplaceCharMeaning(s: string, a: char, b: char)
    ensures a !in s ==> ReplaceChar(s, a, b) == s
    ensures a != b ==> a !in ReplaceChar(s, a, b)
    ensures forall k | 0 <= k < |s| && ReplaceChar(s, a, b)[k] != s[k] ::
      s[k] == a && ReplaceChar(s, a, b)[k] == b
  {
  }

  /** The generator element of `_labelify` for position `i`: the character, lower-cased unless
      the one before it is upper case, then a space at a lower-to-upper step, before the last
      capital of an acronym, and between digits and non-digits. The word is padded with a
      space at both ends. */
  function LabelPiece(word: string, i: nat): (r: string)
    requires i < |word|
    ensures 1 <= |r| <= 2
  {
    var prev := if i == 0 then ' ' else word[i - 1];
    var cur := word[i];
    var next := if i + 1 < |word| then word[i + 1] else ' ';
    [if IsUpper(prev) then cur else Lower(cur)] +
    (if (IsUpper(prev) && IsUpper(cur) && IsLower(next)) || (IsLower(cur) && IsUpper(next)) ||
        IsDigit(cur) != IsDigit(next)
     then " " else "")
  }

  /** The joined generator elements from position `i` on. */
  function LabelFrom(word: string, i: nat): (r: string)
    ensures |r| >= |word| - i
    decreases |word| - i
  {
    if i >= |word| then "" else LabelPiece(word, i) + LabelFrom(word, i + 1)
  }

  /** `_labelify`: a metric name as a human-readable label. An empty name makes the source
      index an empty string (`IndexError`), hence the precondition. */
  function Labelify(word: string): string
    requires |word| > 0
  {
    FinishLabel(LabelFrom(word, 0))
  }

  /** The last step of `_labelify`: the first character upper-cased, the underscores after it
      turned into spaces, surrounding whitespace stripped. */
  function FinishLabel(joined: string): string
    requires |joined| > 0
  {
    Strip([Upper(joined[0])] + ReplaceChar(joined[1..], '_', ' '))
  }

  /** When the first character upper-cased and the rest with its underscores replaced have
      no surrounding whitespace, the label is the two put together. */
  lemma FinishUnstripped(joined: string, first: char, replaced: string)
    requires |joined| > 0 && Upper(joined[0]) == first && |replaced| == |joined| - 1
    requires forall k | 0 <= k < |replaced| ::
      replaced[k] == if joined[k + 1] == '_' then ' ' else joined[k + 1]
    requires !IsSpace(first) && replaced != [] && !IsSpace(replaced[|replaced| - 1])
    ensures FinishLabel(joined) == [first] + replaced
  {
    assert ReplaceChar(joined[1..], '_', ' ') == replaced;
    StripUntouched([first] + replaced);
  }

  /** A run of lower-case letters passes through unchanged: no letter is re-cased and no
      space is inserted inside it. */
  lemma {:induction false} LowercaseRun(word: string, i: nat, j: nat)
    requires i <= j <= |word|
    requires forall k | i <= k < j :: IsLower(word[k])
    requires j < |word| ==> IsLower(word[j])
    ensures LabelFrom(word, i) == word[i..j] + LabelFrom(word, j)
    decreases j - i
  {
    if i < j {
      LowercaseRun(word, i + 1, j);
      var run, tail := word[i + 1..j], LabelFrom(word, j);
      LowercasePiece(word, i);
      assert LabelFrom(word, i) == [word[i]] + LabelFrom(word, i + 1);
      assert word[i..j] == [word[i]] + run;
      Associative([word[i]], run, tail);
    }
  }

  /** A run of lower-case letters followed by a part that passes through unchanged passes
      through unchanged. */
  lemma LowercaseRunToEnd(word: string, i: nat, j: nat)
    requires i <= j <= |word|
    requires forall k | i <= k < j :: IsLower(word[k])
    requires j < |word| ==> IsLower(word[j])
    requires LabelFrom(word, j) == word[j..]
    ensures LabelFrom(word, i) == word[i..]
  {
    LowercaseRun(word, i, j);
    assert word[i..j] + word[j..] == word[i..];
  }

  lemma Associative(a: string, b: string, c: string)
    ensures a + (b + c) == (a + b) + c
  {
  }

  /** A lower-case letter followed by one (or by the end) is its own generator element. */
  lemma LowercasePiece(word: string, i: nat)
    requires i < |word| && IsLower(word[i])
    requires i + 1 < |word| ==> IsLower(word[i + 1])
    ensures LabelPiece(word, i) == [word[i]]
  {
  }

  /** A name of lower-case letters only comes out with its first letter capitalised and
      otherwise unchanged. */
  lemma LowercaseWordLabel(word: string)
    requires |word| > 0 && forall k | 0 <= k < |word| :: IsLower(word[k])
    ensures Labelify(word) == [Upper(word[0])] + word[1..]
  {
    LowercaseRun(word, 0, |word|);
    assert word[0..|word|] == word;
    assert ReplaceChar(word[1..], '_', ' ') == word[1..];
    StripUntouched([Upper(word[0])] + word[1..]);
  }

  /** The examples `_labelify` documents, each in three steps: the joined generator elements,
      the finishing step on them, and the two put together. */
  lemma LabelifyWeekIncidence(w: string)
    requires w == "weekIncidence"
    ensures Labelify(w) == "Week incidence"
  {
    WeekIncidencePieces(w);
    WeekIncidenceFinish(LabelFrom(w, 0));
  }

  lemma WeekIncidencePieces(w: string)
    requires w == "weekIncidence"
    ensures LabelFrom(w, 0) == "week incidence"
  {
    WeekIncidenceTail(w);
    WeekIncidenceHead(w);
  }

  lemma WeekIncidenceTail(w: string)
    requires w == "weekIncidence"
    ensures LabelFrom(w, 4) == "incidence"
  {
    LowercaseRun(w, 5, 13);
    assert w[5..13] == "ncidence";
  }

  lemma WeekIncidenceHead(w: string)
    requires w == "weekIncidence"
    requires LabelFrom(w, 4) == "incidence"
    ensures LabelFrom(w, 0) == "week incidence"
  {
    WeekIncidenceK(w);
    LowercaseRun(w, 0, 3);
  }

  lemma WeekIncidenceK(w: string)
    requires w == "weekIncidence"
    requires LabelFrom(w, 4) == "incidence"
    ensures LabelFrom(w, 3) == "k incidence"
  {
  }

  lemma WeekIncidenceFinish(joined: string)
    requires joined == "week incidence"
    ensures FinishLabel(joined) == "Week incidence"
  {
    assert ReplaceChar(joined[1..], '_', ' ') == joined[1..];
    StripUntouched("Week incidence");
  }

  lemma LabelifyCasesPer100k(w: string)
    requires w == "casesPer100k"
    ensures Labelify(w) == "Cases per 100 k"
  {
    CasesPer100kPieces(w);
    CasesPer100kFinish(LabelFrom(w, 0));
  }

  lemma CasesPer100kPieces(w: string)
    requires w == "casesPer100k"
    ensures LabelFrom(w, 0) == "cases per 100 k"
  {
    CasesPer100kTail(w);
    CasesPer100kHead(w);
  }

  lemma CasesPer100kTail(w: string)
    requires w == "casesPer100k"
    ensures LabelFrom(w, 8) == "100 k"
  {
    assert LabelFrom(w, 11) == "k";
    assert LabelFrom(w, 10) == "0 k";
    assert LabelFrom(w, 9) == "00 k";
  }

  lemma CasesPer100kHead(w: string)
    requires w == "casesPer100k"
    requires LabelFrom(w, 8) == "100 k"
    ensures LabelFrom(w, 0) == "cases per 100 k"
  {
    CasesPer100kMiddle(w);
    CasesPer100kS(w);
    LowercaseRun(w, 0, 4);
  }

  lemma CasesPer100kS(w: string)
    requires w == "casesPer100k"
    requires LabelFrom(w, 5) == "per 100 k"
    ensures LabelFrom(w, 4) == "s per 100 k"
  {
  }

  lemma CasesPer100kMiddle(w: string)
    requires w == "casesPer100k"
    requires LabelFrom(w, 8) == "100 k"
    ensures LabelFrom(w, 5) == "per 100 k"
  {
    assert LabelFrom(w, 7) == "r 100 k";
    assert LabelFrom(w, 6) == "er 100 k";
  }

  lemma CasesPer100kFinish(joined: string)
    requires joined == "cases per 100 k"
    ensures FinishLabel(joined) == "Cases per 100 k"
  {
    assert ReplaceChar(joined[1..], '_', ' ') == joined[1..];
    StripUntouched("Cases per 100 k");
  }

  lemma LabelifyAcronym(w: string)
    requires w == "WHOrecommendation4"
    ensures Labelify(w) == "WHO recommendation 4"
  {
    AcronymPieces(w);
    AcronymFinish(LabelFrom(w, 0));
  }

  lemma AcronymPieces(w: string)
    requires w == "WHOrecommendation4"
    ensures LabelFrom(w, 0) == "wHO recommendation 4 "
  {
    AcronymEnd(w);
    AcronymTail(w);
    AcronymHead(w);
  }

  lemma AcronymEnd(w: string)
    requires w == "WHOrecommendation4"
    ensures LabelFrom(w, 16) == "n 4 "
  {
    assert LabelFrom(w, 17) == "4 ";
  }

  lemma AcronymTail(w: string)
    requires w == "WHOrecommendation4"
    requires LabelFrom(w, 16) == "n 4 "
    ensures LabelFrom(w, 3) == "recommendation 4 "
  {
    LowercaseRun(w, 3, 16);
    assert w[3..16] == "recommendatio";
  }

  lemma AcronymHead(w: string)
    requires w == "WHOrecommendation4"
    requires LabelFrom(w, 3) == "recommendation 4 "
    ensures LabelFrom(w, 0) == "wHO recommendation 4 "
  {
    AcronymCapitals(w);
    AcronymSecond(w);
  }

  lemma AcronymSecond(w: string)
    requires w == "WHOrecommendation4"
    requires LabelFrom(w, 2) == "O recommendation 4 "
    ensures LabelFrom(w, 1) == "HO recommendation 4 "
  {
  }

  lemma AcronymCapitals(w: string)
    requires w == "WHOrecommendation4"
    requires LabelFrom(w, 3) == "recommendation 4 "
    ensures LabelFrom(w, 2) == "O recommendation 4 "
  {
  }

  lemma AcronymFinish(joined: string)
    requires joined == "wHO recommendation 4 "
    ensures FinishLabel(joined) == "WHO recommendation 4"
  {
    AcronymNoUnderscore(joined[1..]);
    assert [Upper(joined[0])] + joined[1..] == "WHO recommendation 4" + " ";
    StripTrailingBlank("WHO recommendation 4");
  }

  lemma AcronymNoUnderscore(rest: string)
    requires rest == "HO recommendation 4 "
    ensures ReplaceChar(rest, '_', ' ') == rest
  {
    assert forall k | 0 <= k < |rest| :: rest[k] != '_';
  }

  lemma LabelifyUnderscore(w: string)
    requires w == "zombie_apocalypse"
    ensures Labelify(w) == "Zombie apocalypse"
  {
    UnderscorePieces(w);
    UnderscoreFinish(LabelFrom(w, 0));
  }

  lemma UnderscorePieces(w: string)
    requires w == "zombie_apocalypse"
    ensures LabelFrom(w, 0) == "zombie_apocalypse"
  {
    UnderscoreTail(w);
    UnderscoreBefore(w);
    LowercaseRunToEnd(w, 0, 5);
  }

  lemma UnderscoreTail(w: string)
    requires w == "zombie_apocalypse"
    ensures LabelFrom(w, 6) == w[6..]
  {
    LowercaseRunToEnd(w, 7, 17);
    assert LabelPiece(w, 6) == [w[6]];
  }

  lemma UnderscoreBefore(w: string)
    requires w == "zombie_apocalypse"
    requires LabelFrom(w, 6) == w[6..]
    ensures LabelFrom(w, 5) == w[5..]
  {
    assert LabelPiece(w, 5) == [w[5]];
  }

  lemma UnderscoreFinish(joined: string)
    requires joined == "zombie_apocalypse"
    ensures FinishLabel(joined) == "Zombie apocalypse"
  {
    var replaced := "ombie apocalypse";
    assert forall k | 0 <= k < |replaced| ::
      replaced[k] == if joined[k + 1] == '_' then ' ' else joined[k + 1];
    FinishUnstripped(joined, 'Z', replaced);
    assert ['Z'] + replaced == "Zombie apocalypse";
  }
}
