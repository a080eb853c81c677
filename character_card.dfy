/** `getInitials` of the character card (src/components/CharacterCard.tsx):
    the initials of the first and the last word of a name, upper-cased.
    Whitespace is the ASCII whitespace of JavaScript's `trim` and `\s`, and
    upper-casing is the ASCII mapping of `toUpperCase`. */
module CharacterCard {
  import opened Characters

  /** Space, tab, line feed, vertical tab, form feed, carriage return. */
  predicate IsSpace(c: char) {
    c == ' ' || c == '\t' || c == '\n' || c == '\r' || c as int == 0x0B || c as int == 0x0C
  }

  ghost predicate AllSpace(s: string) {
    forall i :: 0 <= i < |s| ==> IsSpace(s[i])
  }

  /** Number of whitespace characters at the front of `s`. */
  function LeadingSpace(s: string): (k: nat)
    ensures k <= |s|
    ensures k < |s| ==> !IsSpace(s[k])
  {
    if s != [] && IsSpace(s[0]) then 1 + LeadingSpace(s[1..]) else 0
  }

  /** What `LeadingSpace` counts is whitespace. */
  lemma {:induction false} LeadingSpaceRun(s: string)
    ensures forall j :: 0 <= j < LeadingSpace(s) ==> IsSpace(s[j])
    decreases |s|
  {
    if s != [] && IsSpace(s[0]) {
      LeadingSpaceRun(s[1..]);
      forall j | 1 <= j < LeadingSpace(s)
        ensures IsSpace(s[j])
      {
        assert s[j] == s[1..][j - 1];
      }
    }
  }

  /** Number of whitespace characters at the end of `s`. */
  function TrailingSpace(s: string): (k: nat)
    ensures k <= |s|
    ensures k < |s| ==> !IsSpace(s[|s| - 1 - k])
  {
    if s != [] && IsSpace(s[|s| - 1]) then 1 + TrailingSpace(s[..|s| - 1]) else 0
  }

  /** What `TrailingSpace` counts is whitespace. */
  lemma {:induction false} TrailingSpaceRun(s: string)
    ensures forall j :: |s| - TrailingSpace(s) <= j < |s| ==> IsSpace(s[j])
    decreases |s|
  {
    if s != [] && IsSpace(s[|s| - 1]) {
      var init := s[..|s| - 1];
      TrailingSpaceRun(init);
      forall j | |s| - TrailingSpace(s) <= j < |s| - 1
        ensures IsSpace(s[j])
      {
        assert s[j] == init[j];
      }
    }
  }

  /** `String.prototype.trim`: leading and trailing whitespace removed. */
  function Trim(s: string): (r: string)
    ensures r == [] <==> AllSpace(s)
    ensures r != [] ==> !IsSpace(r[0]) && !IsSpace(r[|r| - 1])
  {
    TrimmedEnds(s);
    var front := s[LeadingSpace(s)..];
    front[..|front| - TrailingSpace(front)]
  }

  /** `Trim` cuts only whitespace, and only at the two ends: the name is its
      trimmed form with a blank run before and after it. */
  lemma TrimCutsBlankEnds(s: string)
    ensures exists a, b :: AllSpace(a) && AllSpace(b) && s == a + Trim(s) + b
  {
    var front := s[LeadingSpace(s)..];
    var a, b := s[..LeadingSpace(s)], front[|front| - TrailingSpace(front)..];
    TrimBetweenRuns(s);
    LeadingSpaceHead(s);
    TrailingSpaceTail(front);
    assert AllSpace(a) && AllSpace(b) && s == a + Trim(s) + b;
  }

  /** The name is its leading run, its trimmed form and the trailing run. */
  lemma TrimBetweenRuns(s: string)
    ensures var front := s[LeadingSpace(s)..];
            s == s[..LeadingSpace(s)] + Trim(s) + front[|front| - TrailingSpace(front)..]
  {
    var k := LeadingSpace(s);
    var front := s[k..];
    var m := |front| - TrailingSpace(front);
    var a, r, b := s[..k], front[..m], front[m..];
    assert Trim(s) == r;
    assert s == a + front;
    assert front == r + b;
    ConcatAssoc(a, r, b);
  }

  /** The run `LeadingSpace` counts, as a sequence, is blank. */
  lemma LeadingSpaceHead(s: string)
    ensures AllSpace(s[..LeadingSpace(s)])
  {
    var head := s[..LeadingSpace(s)];
    LeadingSpaceRun(s);
    assert forall j :: 0 <= j < |head| ==> head[j] == s[j];
  }

  /** What is left once both runs are dropped is empty exactly for a blank
      text, and otherwise starts and ends with a non-whitespace character. */
  lemma {:induction false} TrimmedEnds(s: string)
    ensures var front := s[LeadingSpace(s)..];
            var r := front[..|front| - TrailingSpace(front)];
            (r == [] <==> AllSpace(s)) && (r != [] ==> !IsSpace(r[0]) && !IsSpace(r[|r| - 1]))
  {
    var k := LeadingSpace(s);
    var front := s[k..];
    var r := front[..|front| - TrailingSpace(front)];
    if r == [] {
      LeadingSpaceRun(s);
      TrailingSpaceRun(front);
      assert k == |s|;
    } else {
      assert r[0] == s[k];
      assert r[|r| - 1] == front[|front| - 1 - TrailingSpace(front)];
    }
  }

  /** Length of the run of non-whitespace characters at the front of `s`. */
  function WordLength(s: string): (n: nat)
    ensures n <= |s|
    ensures s != [] && !IsSpace(s[0]) ==> n >= 1
    ensures n < |s| ==> IsSpace(s[n])
  {
    if s == [] || IsSpace(s[0]) then 0 else 1 + WordLength(s[1..])
  }

  /** A word ends at the first whitespace character after it. */
  lemma {:induction false} WordLengthBeforeSpace(a: string, c: string)
    requires c != [] && IsSpace(c[0])
    ensures WordLength(a + c) == WordLength(a)
    decreases |a|
  {
    if a == [] {
      assert a + c == c;
    } else {
      assert (a + c)[0] == a[0];
      assert (a + c)[1..] == a[1..] + c;
      WordLengthBeforeSpace(a[1..], c);
    }
  }

  /** `s.split(/\s+/)`: the pieces between maximal whitespace runs, with an
      empty first piece when `s` starts with whitespace and an empty last
      piece when it ends with whitespace. */
  function Split(s: string): (parts: seq<string>)
    ensures |parts| >= 1
    decreases |s|
  {
    var n := WordLength(s);
    if n == |s| then [s]
    else [s[..n]] + Split(AfterWord(s))
  }

  /** What follows the first word of `s` and the whitespace run after it. */
  function AfterWord(s: string): (u: string)
    requires WordLength(s) < |s|
    ensures |u| < |s|
  {
    var rest := s[WordLength(s) + 1..];
    rest[LeadingSpace(rest)..]
  }

  /** Reference notion: the maximal non-whitespace runs of `s`, in order. */
  function Words(s: string): (r: seq<string>)
    ensures r == [] <==> AllSpace(s)
    ensures forall i :: 0 <= i < |r| ==> r[i] != [] && !IsSpace(r[i][0])
    decreases |s|
  {
    if s == [] then []
    else if IsSpace(s[0]) then Words(s[1..])
    else
      var n := WordLength(s);
      [s[..n]] + Words(s[n..])
  }

  /** ASCII `toUpperCase` of one character. */
  function Upper(c: char): (u: char)
    ensures 'a' <= c <= 'z' ==> 'A' <= u <= 'Z' && u as int == c as int - 32
    ensures !('a' <= c <= 'z') ==> u == c
  {
    if 'a' <= c <= 'z' then (c as int - 32) as char else c
  }

  /** `String.prototype.toUpperCase` on ASCII text. */
  function ToUpper(s: string): (r: string)
    ensures |r| == |s|
    ensures forall i :: 0 <= i < |s| ==> r[i] == Upper(s[i])
  {
    if s == [] then [] else [Upper(s[0])] + ToUpper(s[1..])
  }

  /** Leading whitespace does not change the words. */
  lemma {:induction false} WordsSkipSpace(ws: string, s: string)
    requires AllSpace(ws)
    ensures Words(ws + s) == Words(s)
  {
    if ws != [] {
      assert (ws + s)[1..] == ws[1..] + s;
      WordsSkipSpace(ws[1..], s);
    } else {
      assert ws + s == s;
    }
  }

  /** A text that starts with whitespace adds its words after those of
      whatever precedes it. */
  lemma {:induction false} WordsBeforeSpace(a: string, c: string)
    requires c != [] && IsSpace(c[0])
    ensures Words(a + c) == Words(a) + Words(c)
    decreases |a|
  {
    if a == [] {
      assert a + c == c;
    } else if IsSpace(a[0]) {
      assert (a + c)[1..] == a[1..] + c;
      WordsBeforeSpace(a[1..], c);
    } else {
      WordsBeforeSpace(a[WordLength(a)..], c);
      WordsBeforeSpaceStep(a, c);
    }
  }

  /** If the words of `a + c` split after the first word of `a`, they split
      before `c`. */
  lemma {:induction false} WordsBeforeSpaceStep(a: string, c: string)
    requires a != [] && !IsSpace(a[0]) && c != [] && IsSpace(c[0])
    requires Words(a[WordLength(a)..] + c) == Words(a[WordLength(a)..]) + Words(c)
    ensures Words(a + c) == Words(a) + Words(c)
  {
    var m := WordLength(a);
    FirstWordBeforeSpace(a, c);
    ConcatAssoc([a[..m]], Words(a[m..]), Words(c));
  }

  /** A non-empty whitespace run separates the words on its two sides. */
  lemma {:induction false} WordsJoin(a: string, ws: string, b: string)
    requires ws != [] && AllSpace(ws)
    ensures Words(a + ws + b) == Words(a) + Words(b)
  {
    assert a + ws + b == a + (ws + b);
    WordsBeforeSpace(a, ws + b);
    WordsSkipSpace(ws, b);
  }

  /** The first word of `a` is the first word of `a + c` when `c` starts with
      whitespace, and the words of both continue after it. */
  lemma {:induction false} FirstWordBeforeSpace(a: string, c: string)
    requires a != [] && !IsSpace(a[0]) && c != [] && IsSpace(c[0])
    ensures var m := WordLength(a);
            Words(a + c) == [a[..m]] + Words(a[m..] + c) && Words(a) == [a[..m]] + Words(a[m..])
  {
    var m := WordLength(a);
    WordLengthBeforeSpace(a, c);
    assert (a + c)[..m] == a[..m];
    assert (a + c)[m..] == a[m..] + c;
  }

  /** Dropping the leading whitespace does not change the words. */
  lemma {:induction false} WordsSkipLeading(s: string)
    ensures Words(s[LeadingSpace(s)..]) == Words(s)
    decreases |s|
  {
    if s != [] && IsSpace(s[0]) {
      assert s[LeadingSpace(s)..] == s[1..][LeadingSpace(s[1..])..];
      WordsSkipLeading(s[1..]);
    }
  }

  /** The trailing run of `s` is all whitespace. */
  lemma {:induction false} TrailingSpaceTail(s: string)
    ensures AllSpace(s[|s| - TrailingSpace(s)..])
  {
    var tail := s[|s| - TrailingSpace(s)..];
    TrailingSpaceRun(s);
    assert forall j :: 0 <= j < |tail| ==> tail[j] == s[|s| - TrailingSpace(s) + j];
  }

  /** Dropping the trailing whitespace does not change the words. */
  lemma {:induction false} WordsDropTrailing(s: string)
    ensures Words(s[..|s| - TrailingSpace(s)]) == Words(s)
  {
    var m := TrailingSpace(s);
    var r := s[..|s| - m];
    if m > 0 {
      var tail := s[|s| - m..];
      TrailingSpaceTail(s);
      assert s == r + tail;
      WordsBeforeSpace(r, tail);
      assert Words(tail) == [];
      assert Words(r) + [] == Words(r);
    } else {
      assert r == s;
    }
  }

  /** Trimming does not change the words. */
  lemma {:induction false} WordsOfTrim(s: string)
    ensures Words(Trim(s)) == Words(s)
  {
    var front := s[LeadingSpace(s)..];
    assert Trim(s) == front[..|front| - TrailingSpace(front)];
    WordsSkipLeading(s);
    WordsDropTrailing(front);
  }

  /** One step of the split and of the words past the first word of `t`: both
      continue on what follows the whitespace run after that word. */
  lemma {:induction false} FirstWordStep(t: string)
    requires t != [] && !IsSpace(t[0]) && WordLength(t) < |t|
    ensures Split(t) == [t[..WordLength(t)]] + Split(AfterWord(t))
    ensures Words(t) == [t[..WordLength(t)]] + Words(AfterWord(t))
  {
    var n := WordLength(t);
    var rest := t[n + 1..];
    assert Words(t) == [t[..n]] + Words(t[n..]);
    assert t[n..][1..] == rest;
    assert Words(t[n..]) == Words(rest);
    WordsSkipLeading(rest);
  }

  /** What follows the first word and the whitespace after it is shorter and,
      when the text does not end in whitespace, neither starts nor ends with
      whitespace. */
  lemma {:induction false} AfterFirstWord(t: string)
    requires t != [] && !IsSpace(t[0]) && !IsSpace(t[|t| - 1]) && WordLength(t) < |t|
    ensures var u := AfterWord(t);
            u != [] && !IsSpace(u[0]) && !IsSpace(u[|u| - 1])
  {
    var rest := t[WordLength(t) + 1..];
    assert rest[|rest| - 1] == t[|t| - 1];
    LeadingSpaceRun(rest);
    var u := rest[LeadingSpace(rest)..];
    assert u[|u| - 1] == rest[|rest| - 1];
  }

  /** When the split and the words agree past the first word, they agree. */
  lemma {:induction false} SplitWordsStep(t: string)
    requires t != [] && !IsSpace(t[0]) && WordLength(t) < |t|
    requires Split(AfterWord(t)) == Words(AfterWord(t))
    ensures Split(t) == Words(t)
  {
    FirstWordStep(t);
  }

  /** A text without whitespace is one piece and one word. */
  lemma {:induction false} SingleWordStep(t: string)
    requires t != [] && WordLength(t) == |t|
    ensures Split(t) == [t] && Words(t) == [t]
  {
    assert t[..|t|] == t;
    assert Words(t) == [t[..|t|]] + Words(t[|t|..]);
    assert t[|t|..] == [];
  }

  /** On a non-empty text without surrounding whitespace, the source's split
      yields exactly the words. */
  lemma {:induction false} SplitIsWords(t: string)
    requires t != [] && !IsSpace(t[0]) && !IsSpace(t[|t| - 1])
    ensures Split(t) == Words(t)
    decreases |t|
  {
    if WordLength(t) == |t| {
      SingleWordStep(t);
    } else {
      AfterFirstWord(t);
      SplitIsWords(AfterWord(t));
      SplitWordsStep(t);
    }
  }

  /** The source's `name.trim().split(/\s+/)` on a name that is not blank
      yields exactly the words of the name. */
  lemma {:induction false} SplitTrimIsWords(name: string)
    requires Trim(name) != []
    ensures Split(Trim(name)) == Words(name)
  {
    WordsOfTrim(name);
    SplitIsWords(Trim(name));
  }

  /** The first character of the first piece, followed, when there are
      several pieces, by the first character of the last piece, upper-cased.
      A last piece is never empty here: the pieces come from a trimmed name. */
  function PiecesInitials(parts: seq<string>): (r: string)
    requires |parts| >= 1 && (|parts| > 1 ==> parts[|parts| - 1] != [])
    ensures |r| <= 2
    ensures forall i :: 0 <= i < |r| ==> Upper(r[i]) == r[i]
  {
    var first := if parts[0] != [] then [parts[0][0]] else [];
    var last := if |parts| > 1 then [parts[|parts| - 1][0]] else [];
    ToUpper(first + last)
  }

  lemma {:induction false} OnePieceInitial(parts: seq<string>)
    requires |parts| == 1 && parts[0] != []
    ensures PiecesInitials(parts) == [Upper(parts[0][0])]
  {
    assert PiecesInitials(parts) == ToUpper([parts[0][0]] + []);
  }

  lemma {:induction false} ManyPiecesInitials(parts: seq<string>)
    requires |parts| > 1 && parts[0] != [] && parts[|parts| - 1] != []
    ensures PiecesInitials(parts) == [Upper(parts[0][0]), Upper(parts[|parts| - 1][0])]
  {
    assert PiecesInitials(parts) == ToUpper([parts[0][0]] + [parts[|parts| - 1][0]]);
  }

  /** `getInitials`: empty for a blank name, otherwise the initials of the
      pieces of the trimmed name split at whitespace runs. */
  function Initials(name: string): (r: string)
    ensures |r| <= 2
    ensures forall i :: 0 <= i < |r| ==> Upper(r[i]) == r[i]
    ensures r == [] <==> AllSpace(name)
  {
    var t := Trim(name);
    if t == [] then ""
    else
      SplitTrimIsWords(name);
      PiecesInitials(Split(t))
  }

  /** On a name that is not blank, the initials are those of its words. */
  lemma {:induction false} InitialsOfWords(name: string)
    requires Words(name) != []
    ensures Initials(name) == PiecesInitials(Words(name))
  {
    SplitTrimIsWords(name);
  }

  /** A blank name has no initials. */
  lemma {:induction false} BlankNameHasNoInitials(name: string)
    requires AllSpace(name)
    ensures Initials(name) == ""
  {
  }

  /** A one-word name yields the upper-cased first character of that word. */
  lemma {:induction false} SingleWordInitial(name: string)
    requires |Words(name)| == 1
    ensures Initials(name) == [Upper(Words(name)[0][0])]
  {
    InitialsOfWords(name);
    OnePieceInitial(Words(name));
  }

  /** A name of two or more words yields the upper-cased first characters of
      its first and its last word; the words in between play no part. */
  lemma {:induction false} FirstAndLastInitials(name: string)
    requires |Words(name)| >= 2
    ensures Initials(name) == [Upper(Words(name)[0][0]), Upper(Words(name)[|Words(name)| - 1][0])]
  {
    InitialsOfSeveralWords(name);
    ManyPiecesInitials(Words(name));
  }

  lemma {:induction false} InitialsOfSeveralWords(name: string)
    requires |Words(name)| >= 2
    ensures Initials(name) == PiecesInitials(Words(name))
  {
    InitialsOfWords(name);
  }

  /** The initials depend on the words of the name only. */
  lemma {:induction false} InitialsDependOnWordsOnly(a: string, b: string)
    requires Words(a) == Words(b)
    ensures Initials(a) == Initials(b)
  {
    if Words(a) == [] {
      BlankNameHasNoInitials(a);
      BlankNameHasNoInitials(b);
    } else {
      InitialsOfWords(a);
      InitialsOfWords(b);
    }
  }

  /** Leading and trailing whitespace does not change the initials. */
  lemma {:induction false} PaddingIsIgnored(before: string, name: string, after: string)
    requires AllSpace(before) && AllSpace(after)
    ensures Initials(before + name + after) == Initials(name)
  {
    WordsSkipSpace(before, name + after);
    assert before + name + after == before + (name + after);
    if after != [] {
      WordsJoin(name, after, []);
      assert name + after + [] == name + after;
    } else {
      assert name + after == name;
    }
    InitialsDependOnWordsOnly(before + name + after, name);
  }

  /** The length of an inner whitespace run does not change the initials. */
  lemma {:induction false} RunLengthIsIgnored(a: string, run1: string, run2: string, b: string)
    requires run1 != [] && AllSpace(run1) && run2 != [] && AllSpace(run2)
    ensures Initials(a + run1 + b) == Initials(a + run2 + b)
  {
    WordsJoin(a, run1, b);
    WordsJoin(a, run2, b);
    InitialsDependOnWordsOnly(a + run1 + b, a + run2 + b);
  }

  /** Words between the first and the last word do not change the initials. */
  lemma {:induction false} MiddleWordsIgnored(a: string, ws1: string, m: string, ws2: string, b: string)
    requires ws1 != [] && AllSpace(ws1) && ws2 != [] && AllSpace(ws2)
    requires !AllSpace(a) && !AllSpace(b)
    ensures Initials(a + ws1 + m + ws2 + b) == Initials(a + ws1 + b)
  {
    WordsJoin(a, ws1, m);
    WordsJoin(a + ws1 + m, ws2, b);
    WordsJoin(a, ws1, b);
    var wa, wm, wb := Words(a), Words(m), Words(b);
    var long := wa + wm + wb;
    assert long[0] == wa[0] && long[|long| - 1] == wb[|wb| - 1];
    FirstAndLastInitials(a + ws1 + m + ws2 + b);
    FirstAndLastInitials(a + ws1 + b);
  }
}
