/**
  The configuration-text helpers of servers/network.h: the normaliser
  `__compactNetworkConfiguration__`, which turns a network configuration file
  into a compact form that is easy to search, and `__insideBrackets__`, which
  extracts the text between two delimiters.

  Arduino `String` is modelled as `seq<char>`.  Its `indexOf` (which is not
  part of this model) is stated here as the first occurrence of a pattern,
  with the Arduino rule that nothing is ever found in an empty string.
 */
module NetworkConfig {

  // ----- __compactNetworkConfiguration__ -----

  /** `outp.endsWith (c)` for a one-character suffix (false on an empty string). */
  predicate EndsWith(s: string, c: char)
  {
    |s| > 0 && s[|s| - 1] == c
  }

  /** The characters the normaliser collapses into (at most) one space. */
  predicate Blank(c: char)
  {
    c == ' ' || c == '\t' || c == '=' || c == '\r'
  }

  /**
    What the inner `while (outp.endsWith ("\n") || outp.endsWith (" "))`
    loop leaves of `s`: `s` without its trailing spaces and line breaks.
   */
  function StripTrailing(s: string): (r: string)
    ensures |r| <= |s| && r == s[..|r|]
    ensures !EndsWith(r, '\n') && !EndsWith(r, ' ')
    ensures forall k :: |r| <= k < |s| ==> s[k] == '\n' || s[k] == ' '
    decreases |s|
  {
    if EndsWith(s, '\n') || EndsWith(s, ' ') then StripTrailing(s[..|s| - 1]) else s
  }

  /** The variables of the character loop: the output so far and the two flags. */
  datatype Scan = Scan(outp: string, inComment: bool, inQuotation: bool)

  /** One pass of the character loop, branch by branch as the source's `if` chain. */
  function Step(st: Scan, c: char): Scan
  {
    if c == '#' then st.(inComment := true)
    else if c == '"' then st.(inQuotation := !st.inQuotation)
    else if c == '\n' then
      var o :=
        if EndsWith(st.outp, '\n') then st.outp
        else (if !st.inQuotation && EndsWith(st.outp, ' ') then st.outp[..|st.outp| - 1] else st.outp) + "\n";
      Scan(o, false, false)
    else if c == '{' || c == '}' then
      if st.inComment then st else st.(outp := StripTrailing(st.outp) + ['\n', c, '\n'])
    else if Blank(c) then
      if !st.inComment && !EndsWith(st.outp, ' ') && !EndsWith(st.outp, '\n') then st.(outp := st.outp + " ") else st
    else if !st.inComment then st.(outp := st.outp + [c])
    else st
  }

  /**
    What one character does: `#` and `"` never reach the output; a line break
    ends both a comment and a quotation; inside a comment nothing but a line
    break changes the output or ends the comment; outside one an ordinary
    character is copied as it is.
   */
  lemma StepRules(st: Scan, c: char)
    ensures c == '#' || c == '"' ==> Step(st, c).outp == st.outp
    ensures c == '\n' ==> !Step(st, c).inComment && !Step(st, c).inQuotation
    ensures st.inComment && c != '\n' ==> Step(st, c).outp == st.outp && Step(st, c).inComment
    ensures !st.inComment && c != '#' && c != '"' && c != '\n' && c != '{' && c != '}' && !Blank(c) ==>
              Step(st, c).outp == st.outp + [c]
  {
  }

  /** The loop variables after the first `n` characters of `inp`. */
  function Scanned(inp: string, n: nat): Scan
    requires n <= |inp|
  {
    if n == 0 then Scan("", false, false) else Step(Scanned(inp, n - 1), inp[n - 1])
  }

  /** The result of `__compactNetworkConfiguration__ (inp)`: the loop, then one trailing space dropped. */
  function Compact(inp: string): string
  {
    var o := Scanned(inp, |inp|).outp;
    if EndsWith(o, ' ') then o[..|o| - 1] else o
  }

  /**
    The character-level shape of a compacted configuration: no `#` or `"`;
    no tab, `=` or carriage return; no two spaces in a row; no space right
    after a line break; and no empty line inside the text.
   */
  ghost predicate Clean(s: string)
  {
    && (forall k :: 0 <= k < |s| ==> s[k] != '#' && s[k] != '"' && s[k] != '\t' && s[k] != '=' && s[k] != '\r')
    && (forall k :: 0 < k < |s| ==> !(s[k - 1] == ' ' && s[k] == ' '))
    && (forall k :: 0 < k < |s| ==> !(s[k - 1] == '\n' && s[k] == ' '))
    && (forall k :: 0 < k < |s| ==> !(s[k - 1] == '\n' && s[k] == '\n'))
  }

  /** Every brace stands alone on its line: a line break right before and right after it. */
  ghost predicate BracesAlone(s: string)
  {
    forall k :: 0 <= k < |s| && (s[k] == '{' || s[k] == '}') ==> 0 < k < |s| - 1 && s[k - 1] == '\n' && s[k + 1] == '\n'
  }

  /** The shape `__compactNetworkConfiguration__` gives its result. */
  ghost predicate Tidy(s: string)
  {
    Clean(s) && BracesAlone(s)
  }

  /** Cutting characters off the end keeps a text clean. */
  lemma CleanPrefix(s: string, n: nat)
    requires Clean(s) && n <= |s|
    ensures Clean(s[..n])
  {
    var p := s[..n];
    assert forall k :: 0 <= k < |p| ==> p[k] == s[k];
  }

  /** ... and keeps every brace alone on its line, unless the cut lands right after a brace. */
  lemma BracesAlonePrefix(s: string, n: nat)
    requires BracesAlone(s) && n <= |s|
    requires n > 0 ==> s[n - 1] != '{' && s[n - 1] != '}'
    ensures BracesAlone(s[..n])
  {
    var p := s[..n];
    forall k | 0 <= k < |p| && (p[k] == '{' || p[k] == '}')
      ensures 0 < k < |p| - 1 && p[k - 1] == '\n' && p[k + 1] == '\n'
    {
      assert s[k] == p[k];
    }
  }

  /** A tidy text stays tidy after `StripTrailing` and a brace on its own line. */
  lemma {:induction false} TidyAfterBrace(s: string, c: char)
    requires Tidy(s) && (c == '{' || c == '}')
    ensures Tidy(StripTrailing(s) + ['\n', c, '\n'])
  {
    var r := StripTrailing(s);
    var t := r + ['\n', c, '\n'];
    var n := |r|;
    CleanPrefix(s, n);
    assert s[..n] == r;
    if n > 0 {
      assert r[n - 1] == s[n - 1];
    }
    assert Clean(t);
    forall k | 0 <= k < |t| && (t[k] == '{' || t[k] == '}')
      ensures 0 < k < |t| - 1 && t[k - 1] == '\n' && t[k + 1] == '\n'
    {
      if k < n {
        assert t[k] == s[k] && t[k - 1] == s[k - 1];
        if k < n - 1 {
          assert t[k + 1] == s[k + 1];
        }
      }
    }
  }

  /** A character the loop appends on its own keeps the output tidy. */
  lemma AppendTidy(s: string, c: char)
    requires Tidy(s)
    requires c != '#' && c != '"' && c != '\t' && c != '=' && c != '\r' && c != '{' && c != '}'
    requires c == ' ' ==> !EndsWith(s, ' ') && !EndsWith(s, '\n')
    requires c == '\n' ==> !EndsWith(s, '\n')
    ensures Tidy(s + [c])
  {
    var t := s + [c];
    assert forall k :: 0 <= k < |s| ==> t[k] == s[k];
    forall k | 0 <= k < |t| && (t[k] == '{' || t[k] == '}')
      ensures 0 < k < |t| - 1 && t[k - 1] == '\n' && t[k + 1] == '\n'
    {
      assert s[k] == t[k];
    }
  }

  /**
    The line-break branch keeps the output tidy, and a line break it adds
    outside a quotation has no space right before it.  (A break that adds
    nothing, because the output already ends in one, leaves a space that
    survived inside a quotation where it is.)
   */
  lemma LineBreakKeepsTidy(st: Scan)
    requires Tidy(st.outp)
    ensures Tidy(Step(st, '\n').outp)
    ensures !st.inQuotation && !EndsWith(st.outp, '\n') ==>
              var o := Step(st, '\n').outp;
              EndsWith(o, '\n') && (|o| >= 2 ==> o[|o| - 2] != ' ')
  {
    var s := st.outp;
    if !EndsWith(s, '\n') {
      if !st.inQuotation && EndsWith(s, ' ') {
        var n := |s| - 1;
        CleanPrefix(s, n);
        assert s[n] == ' ';
        BracesAlonePrefix(s, n);
        var p := s[..n];
        if n > 0 {
          assert p[n - 1] == s[n - 1];
          assert s[n - 1] != '\n';
          assert s[n - 1] != ' ';
        }
        AppendTidy(p, '\n');
        assert Step(st, '\n').outp == p + ['\n'];
      } else {
        AppendTidy(s, '\n');
      }
    }
  }

  /** Every pass of the character loop keeps the output tidy. */
  lemma StepKeepsTidy(st: Scan, c: char)
    requires Tidy(st.outp)
    ensures Tidy(Step(st, c).outp)
  {
    var s := st.outp;
    if c == '#' || c == '"' {
    } else if c == '\n' {
      LineBreakKeepsTidy(st);
    } else if c == '{' || c == '}' {
      if !st.inComment {
        TidyAfterBrace(s, c);
      }
    } else if Blank(c) {
      if !st.inComment && !EndsWith(s, ' ') && !EndsWith(s, '\n') {
        AppendTidy(s, ' ');
      }
    } else if !st.inComment {
      AppendTidy(s, c);
    }
  }

  /** The output of the character loop is tidy after any number of characters. */
  lemma {:induction false} ScannedTidy(inp: string, n: nat)
    requires n <= |inp|
    ensures Tidy(Scanned(inp, n).outp)
    decreases n
  {
    if n > 0 {
      ScannedTidy(inp, n - 1);
      StepKeepsTidy(Scanned(inp, n - 1), inp[n - 1]);
    }
  }

  /**
    The compacted configuration is tidy and, with its last space dropped,
    does not end in a space.
   */
  lemma CompactIsTidy(inp: string)
    ensures Tidy(Compact(inp))
    ensures !EndsWith(Compact(inp), ' ')
  {
    var o := Scanned(inp, |inp|).outp;
    ScannedTidy(inp, |inp|);
    if EndsWith(o, ' ') {
      CleanPrefix(o, |o| - 1);
      BracesAlonePrefix(o, |o| - 1);
      if |o| > 1 {
        assert Compact(inp)[|o| - 2] == o[|o| - 2];
      }
    }
  }

  /**
    A `#` starts a comment that lasts to the next line break: up to that
    point nothing reaches the output, whatever the characters are.
   */
  lemma {:induction false} CommentAddsNothing(inp: string, i: nat, j: nat)
    requires i < j <= |inp| && inp[i] == '#'
    requires forall k :: i < k < j ==> inp[k] != '\n'
    ensures Scanned(inp, j).outp == Scanned(inp, i).outp && Scanned(inp, j).inComment
    decreases j
  {
    StepRules(Scanned(inp, j - 1), inp[j - 1]);
    if j > i + 1 {
      CommentAddsNothing(inp, i, j - 1);
    }
  }

  /**
    A worked example: in `a=1 #x` and a line break, `=` becomes a space, the
    comment goes, and so does the space before the line break.
   */
  lemma CompactExample()
    ensures Compact("a=1 #x\n") == "a 1\n"
  {
    var inp := "a=1 #x\n";
    assert Scanned(inp, 1) == Scan("a", false, false);
    assert Scanned(inp, 2) == Scan("a ", false, false);
    assert Scanned(inp, 3) == Scan("a 1", false, false);
    assert Scanned(inp, 4) == Scan("a 1 ", false, false);
    assert Scanned(inp, 5) == Scan("a 1 ", true, false);
    assert Scanned(inp, 6) == Scan("a 1 ", true, false);
    assert Scanned(inp, 7) == Scan("a 1\n", false, false);
  }

  /**
    A space before a line break inside a quotation survives, and a second
    line break right after it adds nothing, so the space stays before a break.
   */
  lemma QuotedSpaceSurvives()
    ensures Compact("\"a \n\n") == "a \n"
  {
    var inp := "\"a \n\n";
    assert Scanned(inp, 1) == Scan("", false, true);
    assert Scanned(inp, 2) == Scan("a", false, true);
    assert Scanned(inp, 3) == Scan("a ", false, true);
    assert Scanned(inp, 4) == Scan("a \n", false, false);
    assert Scanned(inp, 5) == Scan("a \n", false, false);
  }

  /**
    `__compactNetworkConfiguration__`: the character loop over `inp` with its
    two flags, then one trailing space removed.
   */
  method CompactNetworkConfiguration(inp: string) returns (outp: string)
    ensures outp == Compact(inp)
    ensures Tidy(outp) && !EndsWith(outp, ' ')
  {
    outp := "";
    var inComment := false;
    var inQuotation := false;
    for i := 0 to |inp|
      invariant Scan(outp, inComment, inQuotation) == Scanned(inp, i)
    {
      var c := inp[i];
      if c == '#' {
        inComment := true;
      } else if c == '"' {
        inQuotation := !inQuotation;
      } else if c == '\n' {
        if !EndsWith(outp, '\n') {
          if !inQuotation && EndsWith(outp, ' ') {
            outp := outp[..|outp| - 1];
          }
          outp := outp + "\n";
        }
        inComment, inQuotation := false, false;
      } else if c == '{' || c == '}' {
        if !inComment {
          outp := StripLoop(outp);
          outp := outp + ['\n', c, '\n'];
        }
      } else if Blank(c) {
        if !inComment && !EndsWith(outp, ' ') && !EndsWith(outp, '\n') {
          outp := outp + " ";
        }
      } else if !inComment {
        outp := outp + [c];
      }
    }
    if EndsWith(outp, ' ') {
      outp := outp[..|outp| - 1];
    }
    CompactIsTidy(inp);
  }

  /** The inner loop before a brace: drop trailing line breaks and spaces one by one. */
  method StripLoop(s: string) returns (r: string)
    ensures r == StripTrailing(s)
  {
    r := s;
    while EndsWith(r, '\n') || EndsWith(r, ' ')
      invariant StripTrailing(r) == StripTrailing(s)
      decreases |r|
    {
      r := r[..|r| - 1];
    }
  }

  // ----- indexOf and __insideBrackets__ -----

  /** `pat` occurs in `s` at position `i`. */
  predicate OccursAt(s: string, pat: string, i: nat)
  {
    i + |pat| <= |s| && s[i..i + |pat|] == pat
  }

  /** The first position at or after `from` where `pat` occurs in `s`, or -1. */
  function IndexFrom(s: string, pat: string, from: nat): (i: int)
    requires from <= |s|
    ensures i == -1 || from <= i <= |s| - |pat|
    ensures i >= 0 ==> OccursAt(s, pat, i)
    ensures i >= 0 ==> forall j :: from <= j < i ==> !OccursAt(s, pat, j)
    ensures i == -1 ==> forall j :: from <= j <= |s| ==> !OccursAt(s, pat, j)
    decreases |s| - from
  {
    if OccursAt(s, pat, from) then from
    else if from == |s| then -1
    else IndexFrom(s, pat, from + 1)
  }

  /**
    `String::indexOf (pat)`: the first occurrence of `pat` in `s`, or -1 when
    there is none or when `s` is empty.
   */
  function IndexOf(s: string, pat: string): (i: int)
    ensures s == [] ==> i == -1
    ensures i == -1 || 0 <= i <= |s| - |pat|
    ensures i >= 0 ==> OccursAt(s, pat, i) && forall j :: 0 <= j < i ==> !OccursAt(s, pat, j)
    ensures s != [] && i == -1 ==> forall j :: 0 <= j <= |s| ==> !OccursAt(s, pat, j)
  {
    if s == [] then -1 else IndexFrom(s, pat, 0)
  }

  /** The first occurrence is the one IndexOf finds. */
  lemma IndexOfFirst(s: string, pat: string, i: nat)
    requires s != [] && OccursAt(s, pat, i)
    requires forall j :: 0 <= j < i ==> !OccursAt(s, pat, j)
    ensures IndexOf(s, pat) == i
  {
    var r := IndexOf(s, pat);
    assert r != -1 by {
      assert i <= |s|;
    }
  }

  /**
    `__insideBrackets__ (inp, opening, closing)`: the text between the first
    `opening` and the first `closing` after it, or "" when either is missing.
   */
  function InsideBrackets(inp: string, opening: string, closing: string): (r: string)
    ensures IndexOf(inp, opening) == -1 ==> r == ""
    ensures var i := IndexOf(inp, opening);
            i >= 0 ==>
              var rest := inp[i + |opening|..];
              var j := IndexOf(rest, closing);
              && (j == -1 ==> r == "")
              && (j >= 0 ==> r == inp[i + |opening|..i + |opening| + j])
    ensures |closing| > 0 ==> forall p :: 0 <= p <= |r| ==> !OccursAt(r, closing, p)
  {
    var i := IndexOf(inp, opening);
    if i >= 0 then
      var rest := inp[i + |opening|..];
      var j := IndexOf(rest, closing);
      if j >= 0 then
        assert forall p :: 0 <= p <= j && OccursAt(rest[..j], closing, p) ==> OccursAt(rest, closing, p);
        rest[..j]
      else ""
    else ""
  }

  /**
    The partner of InsideBrackets: wrapping `middle` in the delimiters, with
    no earlier `opening` and no `closing` inside, gives `middle` back.
   */
  lemma InsideBracketsOfWrapped(before: string, opening: string, middle: string, closing: string, after: string)
    requires |opening| > 0
    requires forall j :: 0 <= j < |before| ==> !OccursAt(before + opening, opening, j)
    requires forall j :: 0 <= j < |middle| ==> !OccursAt(middle + closing, closing, j)
    ensures InsideBrackets(before + opening + middle + closing + after, opening, closing) == middle
  {
    var inp := before + opening + middle + closing + after;
    var tail := middle + closing + after;
    assert inp == before + opening + tail;
    FirstOccurrence(before, opening, tail);
    var rest := inp[|before| + |opening|..];
    assert rest == middle + closing + after;
    if rest != [] {
      FirstOccurrence(middle, closing, after);
      assert rest[..|middle|] == middle;
    }
  }

  /** In `pre + pat + tail`, with no earlier occurrence of `pat`, IndexOf finds the one after `pre`. */
  lemma FirstOccurrence(pre: string, pat: string, tail: string)
    requires pre + pat + tail != []
    requires forall j :: 0 <= j < |pre| ==> !OccursAt(pre + pat, pat, j)
    ensures IndexOf(pre + pat + tail, pat) == |pre|
  {
    var s := pre + pat + tail;
    var i := |pre|;
    assert s == (pre + pat) + tail;
    assert s[i..i + |pat|] == pat;
    forall j | 0 <= j < i
      ensures !OccursAt(s, pat, j)
    {
      assert !OccursAt(pre + pat, pat, j);
      assert s[j..j + |pat|] == (pre + pat)[j..j + |pat|];
    }
    IndexOfFirst(s, pat, i);
  }
}
