/** The search engine of scripts/search.js: substring search over tasks, regular-expression escaping,
    match highlighting and regular-expression search with the expression engine left abstract. */
module Search {
  import opened Text
  import opened Wrappers
  import opened Seqs
  import opened Tasks

  /** `!query || query.trim() === ''` */
  predicate IsBlank(query: string) {
    Trim(query) == []
  }

  // ---------------------------------------------------------------------------------------------
  // searchTasks

  /** `query.toLowerCase().trim()` */
  function SearchTerm(query: string): string {
    Trim(Lower(query))
  }

  /** The search keeps a task when the term occurs in its lower-cased title, in its lower-cased tag
      when it has one, or verbatim in its due date. */
  predicate MatchesTerm(t: Task, term: string) {
    Contains(Lower(t.title), term)
    || (t.tag != [] && Contains(Lower(t.tag), term))
    || Contains(t.dueDate, term)
  }

  /** `searchTasks`: a blank query returns the list itself; otherwise the tasks matching the term,
      in their original order. */
  function SearchTasks(tasks: seq<Task>, query: string): (r: seq<Task>)
    ensures IsBlank(query) ==> r == tasks
    ensures IsSubsequence(r, tasks) && forall i | 0 <= i < |r| :: r[i] in tasks
    ensures !IsBlank(query) ==> forall i | 0 <= i < |r| :: MatchesTerm(r[i], SearchTerm(query))
    ensures !IsBlank(query) ==> forall i | 0 <= i < |tasks| :: MatchesTerm(tasks[i], SearchTerm(query)) ==> tasks[i] in r
    ensures !IsBlank(query) ==>
      forall x :: multiset(r)[x] == if MatchesTerm(x, SearchTerm(query)) then multiset(tasks)[x] else 0
  {
    if IsBlank(query) then
      SubsequenceOfItself(tasks);
      tasks
    else
      var term := SearchTerm(query);
      var keep := (t: Task) => MatchesTerm(t, term);
      MatchingTasks(tasks, term, keep);
      Filter(tasks, keep)
  }

  /** What the filter by the search term keeps, in terms of `MatchesTerm`. */
  lemma {:induction false} MatchingTasks(tasks: seq<Task>, term: string, keep: Task -> bool)
    requires forall t :: keep(t) == MatchesTerm(t, term)
    ensures var r := Filter(tasks, keep);
      && IsSubsequence(r, tasks)
      && (forall i | 0 <= i < |r| :: r[i] in tasks && MatchesTerm(r[i], term))
      && (forall i | 0 <= i < |tasks| :: MatchesTerm(tasks[i], term) ==> tasks[i] in r)
      && (forall x :: multiset(r)[x] == if MatchesTerm(x, term) then multiset(tasks)[x] else 0)
  {
    FilterIsSubsequence(tasks, keep);
  }

  /** Searching the results of a search again with the same query changes nothing. */
  lemma SearchIdempotent(tasks: seq<Task>, query: string)
    ensures SearchTasks(SearchTasks(tasks, query), query) == SearchTasks(tasks, query)
  {
    if !IsBlank(query) {
      FilterIdempotent(tasks, (t: Task) => MatchesTerm(t, SearchTerm(query)));
    }
  }

  /** Lower-casing leaves whitespace in place, so the term is the lower-cased trimmed query. */
  lemma {:induction false} SearchTermIsLowerTrim(query: string)
    ensures SearchTerm(query) == Lower(Trim(query))
  {
    var l := Lower(query);
    assert forall i | 0 <= i < |query| :: IsSpace(l[i]) <==> IsSpace(query[i]);
    TrimLowerCommute(query);
  }

  lemma {:induction false} TrimLowerCommute(s: string)
    ensures Trim(Lower(s)) == Lower(Trim(s))
  {
    TrimStartLower(s);
    TrimEndLower(TrimStart(s));
  }

  lemma {:induction false} TrimStartLower(s: string)
    ensures TrimStart(Lower(s)) == Lower(TrimStart(s))
    decreases |s|
  {
    if s != [] {
      assert Lower(s)[1..] == Lower(s[1..]);
      TrimStartLower(s[1..]);
    }
  }

  lemma {:induction false} TrimEndLower(s: string)
    ensures TrimEnd(Lower(s)) == Lower(TrimEnd(s))
    decreases |s|
  {
    if s != [] {
      assert Lower(s)[..|s| - 1] == Lower(s[..|s| - 1]);
      TrimEndLower(s[..|s| - 1]);
    }
  }

  // ---------------------------------------------------------------------------------------------
  // escapeRegExp

  /** The characters `escapeRegExp` escapes: . * + ? ^ $ { } ( ) | [ ] \ */
  predicate IsRegExpSpecial(c: char) {
    c in {'.', '*', '+', '?', '^', '$', '{', '}', '(', ')', '|', '[', ']', '\\'}
  }

  /** A pattern that reads as a literal string: every special character, the backslash included,
      appears only as the second half of a backslash escape. */
  predicate IsEscapedLiteral(p: string)
    decreases |p|
  {
    p == []
    || (|p| >= 2 && p[0] == '\\' && IsRegExpSpecial(p[1]) && IsEscapedLiteral(p[2..]))
    || (!IsRegExpSpecial(p[0]) && IsEscapedLiteral(p[1..]))
  }

  /** The string a literal pattern matches: each escape stands for its second character. */
  function Unescape(p: string): string
    decreases |p|
  {
    if p == [] then []
    else if |p| >= 2 && p[0] == '\\' then [p[1]] + Unescape(p[2..])
    else [p[0]] + Unescape(p[1..])
  }

  /** `escapeRegExp`: a backslash goes before each special character; all others are copied. The
      result is a literal pattern that stands for the input. */
  function EscapeRegExp(s: string): (r: string)
    ensures IsEscapedLiteral(r)
    ensures Unescape(r) == s
    ensures |r| >= |s|
  {
    if s == [] then []
    else
      var head := if IsRegExpSpecial(s[0]) then ['\\', s[0]] else [s[0]];
      var rest := EscapeRegExp(s[1..]);
      assert (head + rest)[|head|..] == rest;
      head + rest
  }

  /** Escaping is injective: different strings give different patterns. */
  lemma EscapeInjective(a: string, b: string)
    ensures EscapeRegExp(a) == EscapeRegExp(b) <==> a == b
  {
  }

  /** Characters outside the special set are left alone, and `EscapeRegExp` of a string without
      special characters is that string. */
  lemma {:induction false} EscapePlain(s: string)
    requires forall i | 0 <= i < |s| :: !IsRegExpSpecial(s[i])
    ensures EscapeRegExp(s) == s
    decreases |s|
  {
    if s != [] {
      EscapePlain(s[1..]);
    }
  }

  // ---------------------------------------------------------------------------------------------
  // highlightMatches

  /** A piece of highlighted text: one character copied, or a match wrapped in a mark element. */
  datatype Piece = Plain(c: char) | Marked(m: string)

  /** The text with the markers taken out. */
  function Unmark(ps: seq<Piece>): string {
    if ps == [] then []
    else (if ps[0].Plain? then [ps[0].c] else ps[0].m) + Unmark(ps[1..])
  }

  /** The HTML string `replace` produces. */
  function Render(ps: seq<Piece>): string {
    if ps == [] then []
    else (if ps[0].Plain? then [ps[0].c] else "<mark>" + ps[0].m + "</mark>") + Render(ps[1..])
  }

  /** The case-insensitive literal pattern matches at the start of `text`. */
  predicate StartsWithMatch(text: string, term: string) {
    |term| <= |text| && SameIgnoringCase(text[..|term|], term)
  }

  /** A global case-insensitive literal `replace`: scanning from the left, each match is marked and
      scanning resumes after it; other characters are copied. */
  function Segments(text: string, term: string): (r: seq<Piece>)
    requires term != []
    ensures Unmark(r) == text
    ensures forall i | 0 <= i < |r| :: r[i].Marked? ==> SameIgnoringCase(r[i].m, term)
    decreases |text|
  {
    if text == [] then []
    else if StartsWithMatch(text, term) then
      var rest := Segments(text[|term|..], term);
      assert Unmark([Marked(text[..|term|])] + rest) == text[..|term|] + Unmark(rest) by {
        assert ([Marked(text[..|term|])] + rest)[1..] == rest;
      }
      [Marked(text[..|term|])] + rest
    else
      var rest := Segments(text[1..], term);
      assert Unmark([Plain(text[0])] + rest) == [text[0]] + Unmark(rest) by {
        assert ([Plain(text[0])] + rest)[1..] == rest;
      }
      [Plain(text[0])] + rest
  }

  /** Where piece `i` begins in the text. */
  function Offset(ps: seq<Piece>, i: int): nat
    requires 0 <= i <= |ps|
  {
    |Unmark(ps[..i])|
  }

  lemma {:induction false} UnmarkAppend(a: seq<Piece>, b: seq<Piece>)
    ensures Unmark(a + b) == Unmark(a) + Unmark(b)
    decreases |a|
  {
    if a == [] {
      assert a + b == b;
    } else {
      assert (a + b)[0] == a[0] && (a + b)[1..] == a[1..] + b;
      UnmarkAppend(a[1..], b);
    }
  }

  /** The first piece of the segmentation and the text left after it. */
  lemma SegmentsStep(text: string, term: string) returns (head: Piece, tail: string)
    requires term != [] && text != []
    ensures Segments(text, term) == [head] + Segments(tail, term)
    ensures |tail| < |text| && tail == text[|text| - |tail|..]
    ensures Unmark([head]) == text[..|text| - |tail|]
    ensures head.Plain? ==> !StartsWithMatch(text, term)
  {
    if StartsWithMatch(text, term) {
      head, tail := Marked(text[..|term|]), text[|term|..];
    } else {
      head, tail := Plain(text[0]), text[1..];
    }
    assert [head][1..] == [];
  }

  /** Piece `i` of a list with one more piece in front begins that piece's length further on. */
  lemma OffsetShift(head: Piece, rest: seq<Piece>, i: int)
    requires 0 < i <= |rest| + 1
    ensures Offset([head] + rest, i) == |Unmark([head])| + Offset(rest, i - 1)
  {
    assert ([head] + rest)[..i] == [head] + rest[..i - 1];
    UnmarkAppend([head], rest[..i - 1]);
  }

  /** Matching is leftmost and non-overlapping: no copied character starts a match. */
  lemma {:induction false} SegmentsGreedy(text: string, term: string)
    requires term != []
    ensures var r := Segments(text, term);
      forall i | 0 <= i < |r| :: r[i].Plain? ==> Offset(r, i) <= |text| && !StartsWithMatch(text[Offset(r, i)..], term)
    decreases |text|
  {
    var r := Segments(text, term);
    if text != [] {
      var head, tail := SegmentsStep(text, term);
      var rest := Segments(tail, term);
      SegmentsGreedy(tail, term);
      forall i | 0 <= i < |r| && r[i].Plain?
        ensures Offset(r, i) <= |text| && !StartsWithMatch(text[Offset(r, i)..], term)
      {
        if i > 0 {
          assert r[i] == rest[i - 1];
          GreedyShift(text, term, head, tail, i);
        } else {
          assert r[..0] == [];
        }
      }
    }
  }

  /** A copied piece after the first keeps its no-match property when the first piece is put back. */
  lemma {:induction false} GreedyShift(text: string, term: string, head: Piece, tail: string, i: int)
    requires term != []
    requires Segments(text, term) == [head] + Segments(tail, term)
    requires |tail| < |text| && tail == text[|text| - |tail|..]
    requires Unmark([head]) == text[..|text| - |tail|]
    requires 0 < i <= |Segments(tail, term)|
    requires Offset(Segments(tail, term), i - 1) <= |tail|
    requires !StartsWithMatch(tail[Offset(Segments(tail, term), i - 1)..], term)
    ensures Offset(Segments(text, term), i) <= |text|
    ensures !StartsWithMatch(text[Offset(Segments(text, term), i)..], term)
  {
    var rest := Segments(tail, term);
    var hl := |text| - |tail|;
    OffsetShift(head, rest, i);
    var o := Offset(rest, i - 1);
    assert text[hl + o..] == tail[o..];
  }

  /** `highlightMatches`: the text itself when it is empty or the query blank; otherwise each
      case-insensitive occurrence of the trimmed query, taken left to right, wrapped in a mark
      element with its original casing. */
  function HighlightMatches(text: string, query: string): (r: string)
    ensures IsBlank(query) || text == [] ==> r == text
  {
    if IsBlank(query) || text == [] then text
    else Render(Segments(text, Unescape(EscapeRegExp(Trim(query)))))
  }

  /** The highlighted text is the segmentation of the text by the trimmed query, rendered. */
  lemma HighlightIsSegments(text: string, query: string)
    requires !IsBlank(query) && text != []
    ensures HighlightMatches(text, query) == Render(Segments(text, Trim(query)))
  {
  }

  /** Where the term never occurs, highlighting copies the text. */
  lemma {:induction false} NoMatchRendersText(text: string, term: string)
    requires term != []
    requires forall k | 0 <= k < |text| :: !StartsWithMatch(text[k..], term)
    ensures Render(Segments(text, term)) == text
    decreases |text|
  {
    if text != [] {
      assert text[0..] == text;
      forall k | 0 <= k < |text| - 1 ensures !StartsWithMatch(text[1..][k..], term) {
        assert text[1..][k..] == text[k + 1..];
      }
      NoMatchRendersText(text[1..], term);
      var r := Segments(text, term);
      assert r == [Plain(text[0])] + Segments(text[1..], term);
      assert r[1..] == Segments(text[1..], term);
    }
  }

  lemma NoTeamInMeeting()
    ensures forall k | 0 <= k < |" Meeting"| :: !StartsWithMatch(" Meeting"[k..], "team")
  {
    var t := " Meeting";
    forall k | 0 <= k < |t| ensures !StartsWithMatch(t[k..], "team") {
      if k < 4 {
        assert t[k..][0] == t[k];
        assert LowerChar(t[k]) != 't';
      } else if k == 4 {
        assert t[k..][1] == 'i';
      }
    }
  }

  /** A match at the front of the text is marked with its own casing and highlighting goes on
      after it. */
  lemma HighlightFront(front: string, back: string, term: string)
    requires term != [] && |front| == |term| && SameIgnoringCase(front, term)
    ensures Render(Segments(front + back, term)) == "<mark>" + front + "</mark>" + Render(Segments(back, term))
  {
    var t := front + back;
    assert t[..|term|] == front && t[|term|..] == back;
    var rest := Segments(back, term);
    assert Segments(t, term) == [Marked(front)] + rest;
    assert ([Marked(front)] + rest)[1..] == rest;
  }

  /** A text made of one match at the front and a rest where the query never occurs is highlighted
      by marking the front alone. */
  lemma HighlightSingleFront(front: string, back: string, query: string)
    requires query != [] && Trim(query) == query
    requires |front| == |query| && SameIgnoringCase(front, query)
    requires forall k | 0 <= k < |back| :: !StartsWithMatch(back[k..], query)
    ensures HighlightMatches(front + back, query) == "<mark>" + front + "</mark>" + back
  {
    HighlightIsSegments(front + back, query);
    HighlightFront(front, back, query);
    NoMatchRendersText(back, query);
  }

  /** "Team Meeting" searched for "team": the match keeps its capital letter. */
  lemma HighlightExample()
    ensures HighlightMatches("Team" + " Meeting", "team") == "<mark>" + "Team" + "</mark>" + " Meeting"
  {
    assert Trim("team") == "team" by { TrimOfTrimmed("team"); }
    assert SameIgnoringCase("Team", "team");
    NoTeamInMeeting();
    HighlightSingleFront("Team", " Meeting", "team");
  }

  // ---------------------------------------------------------------------------------------------
  // regexSearch

  /** The fields a compiled expression is tested against, with its `test` as `matches`. */
  predicate RegexKeeps(t: Task, matches: string -> bool) {
    matches(t.title) || (t.tag != [] && matches(t.tag)) || matches(t.dueDate)
  }

  /** `regexSearch`. `compiled` is the outcome of `new RegExp(pattern, 'i')`: `None` when the
      constructor throws, otherwise the expression's `test`. A blank pattern and a pattern that does
      not compile both return the list itself; otherwise the tasks a field of which matches. */
  function RegexSearch(tasks: seq<Task>, pattern: string, compiled: Option<string -> bool>): (r: seq<Task>)
    ensures IsBlank(pattern) || compiled.None? ==> r == tasks
    ensures IsSubsequence(r, tasks)
    ensures !IsBlank(pattern) && compiled.Some? ==>
      (forall i | 0 <= i < |r| :: RegexKeeps(r[i], compiled.value))
      && (forall i | 0 <= i < |tasks| :: RegexKeeps(tasks[i], compiled.value) ==> tasks[i] in r)
      && (forall x :: multiset(r)[x] == if RegexKeeps(x, compiled.value) then multiset(tasks)[x] else 0)
  {
    if IsBlank(pattern) then
      SubsequenceOfItself(tasks);
      tasks
    else if compiled.None? then
      SubsequenceOfItself(tasks);
      tasks
    else
      FilterIsSubsequence(tasks, (t: Task) => RegexKeeps(t, compiled.value));
      Filter(tasks, (t: Task) => RegexKeeps(t, compiled.value))
  }
}
