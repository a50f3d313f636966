// String utilities (arvstr.c, with the inline skip helpers of arvstr.h).
//
// A C string is modelled by the characters before its terminating NUL.
// `arv_str_strip` rewrites a NUL-terminated character array in place; the
// scanners `arv_str_is_uri`, `arv_str_parse_double` and
// `arv_str_parse_double_list` move a cursor over a string, given here as
// the string and an index into it. The double value a parser computes is
// floating point and is not modelled: only success and the cursor are.
module ArvStr {
  import opened Common

  // ---------------------------------------------------------------------
  // arv_str_strip: reference definition

  /** The maximal runs of characters not in `illegal`, left to right. */
  function Runs(s: seq<char>, illegal: seq<char>): (r: seq<seq<char>>)
    ensures forall i :: 0 <= i < |r| ==> |r[i]| > 0
    ensures forall i, j :: 0 <= i < |r| && 0 <= j < |r[i]| ==> r[i][j] !in illegal
    ensures |s| > 0 && s[|s| - 1] !in illegal ==> |r| > 0 && r[|r| - 1][|r[|r| - 1]| - 1] == s[|s| - 1]
    decreases |s|
  {
    if |s| == 0 then []
    else
      var p, c := s[..|s| - 1], s[|s| - 1];
      var rs := Runs(p, illegal);
      if c in illegal then rs
      else if |p| > 0 && p[|p| - 1] !in illegal then
        var front, last := rs[..|rs| - 1], rs[|rs| - 1] + [c];
        LegalRunsSnoc(front, last, illegal);
        front + [last]
      else
        LegalRunsSnoc(rs, [c], illegal);
        rs + [[c]]
  }

  lemma LegalRunsSnoc(rs: seq<seq<char>>, run: seq<char>, illegal: seq<char>)
    requires forall i :: 0 <= i < |rs| ==> |rs[i]| > 0
    requires forall i, j :: 0 <= i < |rs| && 0 <= j < |rs[i]| ==> rs[i][j] !in illegal
    requires |run| > 0 && forall j :: 0 <= j < |run| ==> run[j] !in illegal
    ensures forall i :: 0 <= i < |rs + [run]| ==> |(rs + [run])[i]| > 0
    ensures forall i, j :: 0 <= i < |rs + [run]| && 0 <= j < |(rs + [run])[i]| ==> (rs + [run])[i][j] !in illegal
  {
  }

  /** The runs joined by a separator. */
  function Join(rs: seq<seq<char>>, sep: seq<char>): seq<char>
    decreases |rs|
  {
    if |rs| == 0 then []
    else if |rs| == 1 then rs[0]
    else Join(rs[..|rs| - 1], sep) + sep + rs[|rs| - 1]
  }

  /** What separates two runs: the replacement character, or nothing when
      it is NUL. */
  function Separator(replacement: char): seq<char>
  {
    if replacement == '\0' then [] else [replacement]
  }

  /** The stripped string: the legal runs joined by one replacement
      character each; illegal characters at either end vanish. */
  function Stripped(s: seq<char>, illegal: seq<char>, replacement: char): seq<char>
  {
    Join(Runs(s, illegal), Separator(replacement))
  }

  // ---------------------------------------------------------------------
  // Properties of the reference definition

  lemma JoinEmpty(rs: seq<seq<char>>, sep: seq<char>)
    requires forall i :: 0 <= i < |rs| ==> |rs[i]| > 0
    ensures |Join(rs, sep)| == 0 <==> |rs| == 0
    decreases |rs|
  {
    if |rs| > 1 {
      JoinEmpty(rs[..|rs| - 1], sep);
    }
  }

  /** Reading one more input character: an illegal one changes nothing; a
      legal one is appended, after a separator when it starts a new run
      that is not the first. */
  lemma {:induction false} StrippedSnoc(p: seq<char>, c: char, illegal: seq<char>, replacement: char)
    ensures c in illegal ==> Stripped(p + [c], illegal, replacement) == Stripped(p, illegal, replacement)
    ensures c !in illegal ==>
      Stripped(p + [c], illegal, replacement)
      == Stripped(p, illegal, replacement)
         + (if |p| > 0 && p[|p| - 1] in illegal && |Stripped(p, illegal, replacement)| > 0
            then Separator(replacement) else [])
         + [c]
  {
    var s := p + [c];
    assert s[..|s| - 1] == p;
    var rs, sep := Runs(p, illegal), Separator(replacement);
    JoinEmpty(rs, sep);
    if c !in illegal {
      if |p| > 0 && p[|p| - 1] !in illegal {
        assert Runs(s, illegal) == rs[..|rs| - 1] + [rs[|rs| - 1] + [c]];
        JoinExtendLast(rs, c, sep);
      } else {
        assert Runs(s, illegal) == rs + [[c]];
        JoinAppendRun(rs, c, sep);
      }
    } else {
      assert Runs(s, illegal) == rs;
    }
  }

  /** Extending the last run extends the joined string. */
  lemma JoinExtendLast(rs: seq<seq<char>>, c: char, sep: seq<char>)
    requires |rs| > 0
    ensures Join(rs[..|rs| - 1] + [rs[|rs| - 1] + [c]], sep) == Join(rs, sep) + [c]
  {
    var rs' := rs[..|rs| - 1] + [rs[|rs| - 1] + [c]];
    assert rs'[..|rs'| - 1] == rs[..|rs| - 1];
  }

  /** A new run comes after a separator, unless it is the first. */
  lemma JoinAppendRun(rs: seq<seq<char>>, c: char, sep: seq<char>)
    ensures Join(rs + [[c]], sep) == Join(rs, sep) + (if |rs| > 0 then sep else []) + [c]
  {
    var rs' := rs + [[c]];
    assert rs'[..|rs'| - 1] == rs;
  }

  /** With a NUL replacement every illegal character is dropped and the
      others keep their order. */
  function Filter(s: seq<char>, illegal: seq<char>): seq<char>
    decreases |s|
  {
    if |s| == 0 then []
    else Filter(s[..|s| - 1], illegal) + (if s[|s| - 1] in illegal then [] else [s[|s| - 1]])
  }

  lemma {:induction false} StripWithNulDropsIllegal(s: seq<char>, illegal: seq<char>)
    ensures Stripped(s, illegal, '\0') == Filter(s, illegal)
    decreases |s|
  {
    if |s| > 0 {
      var p := s[..|s| - 1];
      assert s == p + [s[|s| - 1]];
      StrippedSnoc(p, s[|s| - 1], illegal, '\0');
      StripWithNulDropsIllegal(p, illegal);
    }
  }

  /** A string without illegal characters is left as it is. */
  lemma {:induction false} StripKeepsLegalString(s: seq<char>, illegal: seq<char>, replacement: char)
    requires forall i :: 0 <= i < |s| ==> s[i] !in illegal
    ensures Stripped(s, illegal, replacement) == s
    decreases |s|
  {
    if |s| > 0 {
      var p := s[..|s| - 1];
      assert s == p + [s[|s| - 1]];
      StrippedSnoc(p, s[|s| - 1], illegal, replacement);
      StripKeepsLegalString(p, illegal, replacement);
    }
  }

  /** The output is never longer than the input; one shorter at least when
      the input ends with an illegal character. */
  lemma {:induction false} StripNeverLonger(s: seq<char>, illegal: seq<char>, replacement: char)
    ensures |Stripped(s, illegal, replacement)| + (if |s| > 0 && s[|s| - 1] in illegal then 1 else 0) <= |s|
    decreases |s|
  {
    if |s| > 0 {
      var p := s[..|s| - 1];
      assert s == p + [s[|s| - 1]];
      StrippedSnoc(p, s[|s| - 1], illegal, replacement);
      StripNeverLonger(p, illegal, replacement);
    }
  }

  lemma {:induction false} JoinEnds(rs: seq<seq<char>>, sep: seq<char>)
    requires |rs| > 0 && forall i :: 0 <= i < |rs| ==> |rs[i]| > 0
    ensures |Join(rs, sep)| > 0
    ensures Join(rs, sep)[0] == rs[0][0]
    ensures Join(rs, sep)[|Join(rs, sep)| - 1] == rs[|rs| - 1][|rs[|rs| - 1]| - 1]
    decreases |rs|
  {
    if |rs| > 1 {
      JoinEnds(rs[..|rs| - 1], sep);
    }
  }

  /** Illegal characters at the beginning and at the end are removed: a
      non-empty output starts and ends with legal characters, even when the
      replacement character is itself illegal. */
  lemma StripTrimsEnds(s: seq<char>, illegal: seq<char>, replacement: char)
    ensures var t := Stripped(s, illegal, replacement);
      |t| > 0 ==> t[0] !in illegal && t[|t| - 1] !in illegal
  {
    var rs := Runs(s, illegal);
    if |rs| > 0 {
      JoinEnds(rs, Separator(replacement));
    }
  }

  /** Illegal characters appended to a string change nothing. */
  lemma {:induction false} StrippedIllegalSuffix(p: seq<char>, w: seq<char>, illegal: seq<char>, replacement: char)
    requires forall i :: 0 <= i < |w| ==> w[i] in illegal
    ensures Stripped(p + w, illegal, replacement) == Stripped(p, illegal, replacement)
    decreases |w|
  {
    if |w| > 0 {
      var q := w[..|w| - 1];
      assert p + w == (p + q) + [w[|w| - 1]];
      assert w == q + [w[|w| - 1]];
      StrippedSnoc(p + q, w[|w| - 1], illegal, replacement);
      StrippedIllegalSuffix(p, q, illegal, replacement);
    } else {
      assert p + w == p;
    }
  }

  /** A legal word appended to a string is appended to its stripped form,
      after one replacement when it follows an illegal character that
      closes a gap between kept characters. */
  lemma {:induction false} StrippedLegalSuffix(p: seq<char>, w: seq<char>, illegal: seq<char>, replacement: char)
    requires |w| > 0 && forall i :: 0 <= i < |w| ==> w[i] !in illegal
    ensures Stripped(p + w, illegal, replacement)
            == Stripped(p, illegal, replacement)
               + (if |p| > 0 && p[|p| - 1] in illegal && |Stripped(p, illegal, replacement)| > 0
                  then Separator(replacement) else [])
               + w
    decreases |w|
  {
    var q, c := w[..|w| - 1], w[|w| - 1];
    assert p + w == (p + q) + [c];
    StrippedSnoc(p + q, c, illegal, replacement);
    if |q| == 0 {
      assert p + q == p;
    } else {
      StrippedLegalSuffix(p, q, illegal, replacement);
      assert (p + q)[|p + q| - 1] == q[|q| - 1];
      assert w == q + [c];
    }
  }

  /** A legal word between illegal characters strips to the word. */
  lemma StrippedWord(lead: seq<char>, w: seq<char>, tail: seq<char>, illegal: seq<char>, replacement: char)
    requires forall i :: 0 <= i < |lead| ==> lead[i] in illegal
    requires |w| > 0 && forall i :: 0 <= i < |w| ==> w[i] !in illegal
    requires forall i :: 0 <= i < |tail| ==> tail[i] in illegal
    ensures Stripped(lead + w + tail, illegal, replacement) == w
  {
    StrippedIllegalSuffix([], lead, illegal, replacement);
    assert [] + lead == lead;
    StrippedLegalSuffix(lead, w, illegal, replacement);
    StrippedIllegalSuffix(lead + w, tail, illegal, replacement);
  }

  /** Two legal words separated by illegal characters strip to the words
      joined by one separator. */
  lemma StrippedTwoWords(lead: seq<char>, w1: seq<char>, mid: seq<char>, w2: seq<char>, tail: seq<char>,
                         illegal: seq<char>, replacement: char)
    requires forall i :: 0 <= i < |lead| ==> lead[i] in illegal
    requires |w1| > 0 && forall i :: 0 <= i < |w1| ==> w1[i] !in illegal
    requires |mid| > 0 && forall i :: 0 <= i < |mid| ==> mid[i] in illegal
    requires |w2| > 0 && forall i :: 0 <= i < |w2| ==> w2[i] !in illegal
    requires forall i :: 0 <= i < |tail| ==> tail[i] in illegal
    ensures Stripped(lead + w1 + mid + w2 + tail, illegal, replacement) == w1 + Separator(replacement) + w2
  {
    StrippedWord(lead, w1, [], illegal, replacement);
    assert lead + w1 + [] == lead + w1;
    StrippedIllegalSuffix(lead + w1, mid, illegal, replacement);
    StrippedLegalSuffix(lead + w1 + mid, w2, illegal, replacement);
    assert (lead + w1 + mid)[|lead + w1 + mid| - 1] == mid[|mid| - 1];
    StrippedIllegalSuffix(lead + w1 + mid + w2, tail, illegal, replacement);
  }

  /** The illegal set of the strip test in tests/misc.c: the control
      characters 0x01 to 0x0f and 0x11 to 0x1f, then space, '_' and '-'. */
  const TEST_ILLEGAL: seq<char> :=
    seq(15, (i: int) requires 0 <= i < 15 => (i + 0x01) as char)
    + seq(15, (i: int) requires 0 <= i < 15 => (i + 0x11) as char) + " _-"

  predicate TestIllegalChar(c: char)
  {
    (0x01 <= c as int <= 0x0f) || (0x11 <= c as int <= 0x1f) || c == ' ' || c == '_' || c == '-'
  }

  lemma InTestIllegal(c: char)
    ensures c in TEST_ILLEGAL <==> TestIllegalChar(c)
  {
    if TestIllegalChar(c) {
      var k := if c == ' ' then 30 else if c == '_' then 31 else if c == '-' then 32
               else if c as int <= 0x0f then c as int - 0x01 else c as int - 0x11 + 15;
      assert TEST_ILLEGAL[k] == c;
    }
  }

  /** The strip_strings table of tests/misc.c: each string and what it
      strips to, with '-' as the replacement. The strings that hold words
      are written as their runs of illegal characters and their words. */
  const STRIP_TABLE: seq<(string, string)> := [
    ("\n\t" + "Hello" + "\r\n" + "world!" + "\n\t", "Hello-world!"),
    ("\n\t" + "Hello", "Hello"),
    ("Hello" + "\r\t", "Hello"),
    ("Hello" + "\r" + "world!", "Hello-world!"),
    ("Hello" + "\r- -_\r" + "world!", "Hello-world!"),
    ("", ""),
    (TEST_ILLEGAL[..15], ""),
    (TEST_ILLEGAL[15..30], ""),
    ("\r", ""),
    ("\n\n", ""),
    ("H\U{e9}t\U{e9}roclite", "H\U{e9}t\U{e9}roclite")]

  /** What the solver needs about the test's illegal set. */
  lemma TestIllegalChars()
    ensures forall c: char :: c in TEST_ILLEGAL <==> TestIllegalChar(c)
  {
    forall c: char ensures c in TEST_ILLEGAL <==> TestIllegalChar(c) {
      InTestIllegal(c);
    }
  }

  /** StrippedWord for the test's illegal set, its characters told apart
      by TestIllegalChar. */
  lemma TestStripWord(s: string, lead: string, w: string, tail: string)
    requires forall i :: 0 <= i < |lead| ==> TestIllegalChar(lead[i])
    requires |w| > 0 && forall i :: 0 <= i < |w| ==> !TestIllegalChar(w[i])
    requires forall i :: 0 <= i < |tail| ==> TestIllegalChar(tail[i])
    requires s == lead + w + tail
    ensures Stripped(s, TEST_ILLEGAL, '-') == w
  {
    TestIllegalChars();
    StrippedWord(lead, w, tail, TEST_ILLEGAL, '-');
  }

  /** StrippedTwoWords for the test's illegal set. */
  lemma TestStripTwoWords(s: string, lead: string, w1: string, mid: string, w2: string, tail: string,
                          replacement: char)
    requires forall i :: 0 <= i < |lead| ==> TestIllegalChar(lead[i])
    requires |w1| > 0 && forall i :: 0 <= i < |w1| ==> !TestIllegalChar(w1[i])
    requires |mid| > 0 && forall i :: 0 <= i < |mid| ==> TestIllegalChar(mid[i])
    requires |w2| > 0 && forall i :: 0 <= i < |w2| ==> !TestIllegalChar(w2[i])
    requires forall i :: 0 <= i < |tail| ==> TestIllegalChar(tail[i])
    requires s == lead + w1 + mid + w2 + tail
    ensures Stripped(s, TEST_ILLEGAL, replacement) == w1 + Separator(replacement) + w2
  {
    TestIllegalChars();
    StrippedTwoWords(lead, w1, mid, w2, tail, TEST_ILLEGAL, replacement);
  }

  /** Row 1: Illegal characters at both ends and between the words. */
  lemma StripTableRow0()
    ensures Stripped(STRIP_TABLE[0].0, TEST_ILLEGAL, '-') == STRIP_TABLE[0].1
  {
    TestStripTwoWords(STRIP_TABLE[0].0, "\n\t", "Hello", "\r\n", "world!", "\n\t", '-');
  }

  /** Row 2: Illegal characters before the word. */
  lemma StripTableRow1()
    ensures Stripped(STRIP_TABLE[1].0, TEST_ILLEGAL, '-') == STRIP_TABLE[1].1
  {
    TestStripWord(STRIP_TABLE[1].0, "\n\t", "Hello", "");
  }

  /** Row 3: Illegal characters after the word. */
  lemma StripTableRow2()
    ensures Stripped(STRIP_TABLE[2].0, TEST_ILLEGAL, '-') == STRIP_TABLE[2].1
  {
    TestStripWord(STRIP_TABLE[2].0, "", "Hello", "\r\t");
  }

  /** Row 4: One illegal character between the words. */
  lemma StripTableRow3()
    ensures Stripped(STRIP_TABLE[3].0, TEST_ILLEGAL, '-') == STRIP_TABLE[3].1
  {
    TestStripTwoWords(STRIP_TABLE[3].0, "", "Hello", "\r", "world!", "", '-');
  }

  /** Row 5: Illegal characters, some of them the replacement itself, between the words. */
  lemma StripTableRow4()
    ensures Stripped(STRIP_TABLE[4].0, TEST_ILLEGAL, '-') == STRIP_TABLE[4].1
  {
    TestStripTwoWords(STRIP_TABLE[4].0, "", "Hello", "\r- -_\r", "world!", "", '-');
  }

  /** The empty row and the rows of illegal characters only. */
  lemma StripTableEmpty(i: nat)
    requires 5 <= i <= 9
    ensures Stripped(STRIP_TABLE[i].0, TEST_ILLEGAL, '-') == STRIP_TABLE[i].1
  {
    TestIllegalChars();
    var s := STRIP_TABLE[i].0;
    StrippedIllegalSuffix([], s, TEST_ILLEGAL, '-');
    assert [] + s == s;
  }

  /** Row 11: A string with no illegal character is left as it is. */
  lemma StripTableLegal(s: string)
    requires s == "H\U{e9}t\U{e9}roclite"
    ensures Stripped(s, TEST_ILLEGAL, '-') == s
  {
    TestIllegalChars();
    StripKeepsLegalString(s, TEST_ILLEGAL, '-');
  }

  /** Every row of the table strips as the test expects. */
  lemma StripTableRows(i: nat)
    requires i < |STRIP_TABLE|
    ensures Stripped(STRIP_TABLE[i].0, TEST_ILLEGAL, '-') == STRIP_TABLE[i].1
  {
    if i == 0 {
      StripTableRow0();
    } else if i == 1 {
      StripTableRow1();
    } else if i == 2 {
      StripTableRow2();
    } else if i == 3 {
      StripTableRow3();
    } else if i == 4 {
      StripTableRow4();
    } else if i < 10 {
      StripTableEmpty(i);
    } else {
      StripTableLegal(STRIP_TABLE[i].0);
    }
  }

  /** The test's last string, stripped with a NUL replacement: the
      illegal characters are dropped without a separator. */
  lemma StripTableNul()
    ensures Stripped("Hello" + "\r\n " + "world", TEST_ILLEGAL, '\0') == "Helloworld"
  {
    TestStripTwoWords("Hello" + "\r\n " + "world", "", "Hello", "\r\n ", "world", "", '\0');
  }

  // ---------------------------------------------------------------------
  // arv_str_strip, in place

  /** The inner loop: whether `c` is one of the illegal characters. */
  method IsIllegal(illegal: seq<char>, c: char) returns (found: bool)
    ensures found <==> c in illegal
  {
    found := false;
    var i := 0;
    while i < |illegal| && !found
      invariant 0 <= i <= |illegal|
      invariant found <==> c in illegal[..i]
    {
      found := illegal[i] == c;
      i := i + 1;
      assert illegal[..i] == illegal[..i - 1] + [illegal[i - 1]];
    }
    assert !found ==> illegal[..i] == illegal;
  }

  /** True when `str` holds a C string of length n: a NUL at n and none before. */
  predicate IsCString(str: seq<char>, n: nat)
  {
    n < |str| && str[n] == '\0' && forall i :: 0 <= i < n ==> str[i] != '\0'
  }

  lemma {:induction false} StrippedHasNoNul(s: seq<char>, illegal: seq<char>, replacement: char)
    requires forall i :: 0 <= i < |s| ==> s[i] != '\0'
    ensures forall i :: 0 <= i < |Stripped(s, illegal, replacement)| ==> Stripped(s, illegal, replacement)[i] != '\0'
    decreases |s|
  {
    if |s| > 0 {
      var p := s[..|s| - 1];
      assert s == p + [s[|s| - 1]];
      StrippedSnoc(p, s[|s| - 1], illegal, replacement);
      StrippedHasNoNul(p, illegal, replacement);
    }
  }

  /** The state of the strip loop after reading orig[..ptr]: the array
      holds the stripped prefix, followed by one pending replacement
      character when the prefix ends inside a run of illegal characters
      after a legal one; `lastChar` is the position after the last legal
      character written; nothing from `out` on has been written. */
  ghost predicate StripInv(a: seq<char>, orig: seq<char>, n: nat, ptr: nat, out: nat, lastChar: Option<nat>,
                           illegal: seq<char>, replacement: char)
  {
    ptr <= n < |orig|
    && StripState(a, orig, n, ptr, out, lastChar, illegal, replacement, Stripped(orig[..ptr], illegal, replacement))
  }

  /** StripInv with the stripped prefix `j` given. */
  ghost predicate StripState(a: seq<char>, orig: seq<char>, n: nat, ptr: nat, out: nat, lastChar: Option<nat>,
                             illegal: seq<char>, replacement: char, j: seq<char>)
  {
    |a| == |orig| && ptr <= n < |orig| && out <= ptr && a[out..] == orig[out..]
    && var pending := ptr > 0 && orig[ptr - 1] in illegal && |j| > 0 && replacement != '\0';
       out == |j| + (if pending then 1 else 0)
       && a[..|j|] == j
       && (pending ==> a[|j|] == replacement)
       && lastChar == (if |j| == 0 then None else Some(|j|))
  }

  lemma StripStepIllegal(a: seq<char>, orig: seq<char>, n: nat, ptr: nat, out: nat, lastChar: Option<nat>,
                         illegal: seq<char>, replacement: char)
    requires StripInv(a, orig, n, ptr, out, lastChar, illegal, replacement)
    requires ptr < n && orig[ptr] in illegal
    ensures lastChar == Some(out) && replacement != '\0' ==>
      StripInv(a[out := replacement], orig, n, ptr + 1, out + 1, lastChar, illegal, replacement)
    ensures !(lastChar == Some(out) && replacement != '\0') ==>
      StripInv(a, orig, n, ptr + 1, out, lastChar, illegal, replacement)
  {
    assert orig[..ptr + 1] == orig[..ptr] + [orig[ptr]];
    StrippedSnoc(orig[..ptr], orig[ptr], illegal, replacement);
    assert a[out := replacement][out + 1..] == a[out..][1..] == orig[out..][1..];
  }

  lemma StripStepLegal(a: seq<char>, orig: seq<char>, n: nat, ptr: nat, out: nat, lastChar: Option<nat>,
                       illegal: seq<char>, replacement: char)
    requires StripInv(a, orig, n, ptr, out, lastChar, illegal, replacement)
    requires ptr < n && orig[ptr] !in illegal
    ensures StripInv(a[out := orig[ptr]], orig, n, ptr + 1, out + 1, Some(out + 1), illegal, replacement)
  {
    var c := orig[ptr];
    var p := orig[..ptr];
    var j := Stripped(p, illegal, replacement);
    var pending := ptr > 0 && orig[ptr - 1] in illegal && |j| > 0 && replacement != '\0';
    var j' := j + (if pending then [replacement] else []) + [c];
    assert Stripped(orig[..ptr + 1], illegal, replacement) == j' by {
      assert orig[..ptr + 1] == p + [c];
      StrippedSnoc(p, c, illegal, replacement);
      if ptr > 0 {
        assert p[|p| - 1] == orig[ptr - 1];
      }
    }
    assert StripState(a, orig, n, ptr, out, lastChar, illegal, replacement, j);
    StripStateLegal(a, orig, n, ptr, out, lastChar, illegal, replacement, j, j');
  }

  lemma StripStateLegal(a: seq<char>, orig: seq<char>, n: nat, ptr: nat, out: nat, lastChar: Option<nat>,
                        illegal: seq<char>, replacement: char, j: seq<char>, j': seq<char>)
    requires StripState(a, orig, n, ptr, out, lastChar, illegal, replacement, j)
    requires ptr < n && orig[ptr] !in illegal
    requires j' == j + (if ptr > 0 && orig[ptr - 1] in illegal && |j| > 0 && replacement != '\0'
                        then [replacement] else []) + [orig[ptr]]
    ensures StripState(a[out := orig[ptr]], orig, n, ptr + 1, out + 1, Some(out + 1), illegal, replacement, j')
  {
    var a' := a[out := orig[ptr]];
    assert a'[..out + 1] == a[..out] + [orig[ptr]];
    if ptr > 0 && orig[ptr - 1] in illegal && |j| > 0 && replacement != '\0' {
      assert a[..out] == a[..|j|] + [a[|j|]];
    }
    assert a'[out + 1..] == a[out..][1..] == orig[out..][1..];
  }

  /** After the loop the terminating NUL goes right after the stripped
      string, which is where `lastChar` points (or at 0 when it is NULL). */
  lemma StripFinish(a: seq<char>, orig: seq<char>, n: nat, out: nat, lastChar: Option<nat>,
                    illegal: seq<char>, replacement: char)
    requires StripInv(a, orig, n, n, out, lastChar, illegal, replacement) && IsCString(orig, n)
    ensures var t := Stripped(orig[..n], illegal, replacement);
      (if lastChar.Some? then lastChar.value else 0) == |t| && |t| < |a|
      && IsCString(a[|t| := '\0'], |t|) && a[|t| := '\0'][..|t|] == t
      && a[|t| := '\0'][|t| + 1..] == orig[|t| + 1..]
  {
    var t := Stripped(orig[..n], illegal, replacement);
    StrippedHasNoNul(orig[..n], illegal, replacement);
    var a' := a[|t| := '\0'];
    assert a'[..|t|] == t;
    assert a'[|t| + 1..] == a[|t| + 1..];
  }

  /** arv_str_strip (str, illegal_chars, replacement_char). A NULL string,
      a NULL or empty set of illegal characters leave the string as it is;
      otherwise the string becomes `Stripped` of its old contents, the write
      position never passing the read position. */
  method Strip(str: array?<char>, n: nat, illegal: Option<seq<char>>, replacement: char)
    returns (r: array?<char>)
    requires str != null ==> IsCString(str[..], n)
    modifies str
    ensures r == str
    ensures str != null && (illegal.None? || |illegal.value| == 0) ==> str[..] == old(str[..])
    ensures str != null && illegal.Some? && |illegal.value| > 0 ==> (
      var t := Stripped(old(str[..n]), illegal.value, replacement);
      IsCString(str[..], |t|) && str[..|t|] == t && str[|t| + 1..] == old(str[|t| + 1..]))
  {
    r := str;
    if str == null || illegal.None? || |illegal.value| == 0 {
      return;
    }
    ghost var orig := str[..];
    var chars := illegal.value;
    var lastChar: Option<nat> := None;
    var ptr, out := 0, 0;
    while str[ptr] != '\0'
      invariant StripInv(str[..], orig, n, ptr, out, lastChar, chars, replacement)
      decreases n - ptr
    {
      assert ptr < n by {
        assert str[ptr] == orig[ptr];
      }
      var c := str[ptr];
      var found := IsIllegal(chars, c);
      if found {
        StripStepIllegal(str[..], orig, n, ptr, out, lastChar, chars, replacement);
        if lastChar == Some(out) && replacement != '\0' {
          str[out] := replacement;
          out := out + 1;
        }
      } else {
        StripStepLegal(str[..], orig, n, ptr, out, lastChar, chars, replacement);
        str[out] := c;
        out := out + 1;
        lastChar := Some(out);
      }
      ptr := ptr + 1;
    }
    assert ptr == n by {
      assert str[ptr] == orig[ptr];
    }
    StripFinish(str[..], orig, n, out, lastChar, chars, replacement);
    assert orig[..n] == old(str[..n]);
    if lastChar.Some? {
      str[lastChar.value] := '\0';
    } else {
      str[0] := '\0';
    }
  }

  // ---------------------------------------------------------------------
  // arv_str_is_uri

  predicate IsAsciiLetter(c: char) { 'a' <= c <= 'z' || 'A' <= c <= 'Z' }
  predicate IsAsciiDigit(c: char) { '0' <= c <= '9' }

  /** A character of a URI scheme after the first one (RFC 2396, section 3.1). */
  predicate IsSchemeChar(c: char)
  {
    IsAsciiLetter(c) || IsAsciiDigit(c) || c == '+' || c == '-' || c == '.'
  }

  /** Scheme characters from position 1 up to i, and "://" at i. */
  predicate SchemeEndsAt(s: seq<char>, i: nat)
  {
    1 <= i <= |s| - 3 && (forall j :: 1 <= j < i ==> IsSchemeChar(s[j])) && s[i..i + 3] == "://"
  }

  /** A letter, then scheme characters, then "://" (at least four characters). */
  predicate IsUriShaped(s: seq<char>)
  {
    |s| >= 4 && IsAsciiLetter(s[0]) && exists i :: 1 <= i <= |s| - 3 && SchemeEndsAt(s, i)
  }

  /** The scheme can only end where the scan stops, ':' being no scheme
      character. */
  lemma SchemeEndIsScanEnd(s: seq<char>, p: nat, i: nat)
    requires 1 <= p <= |s| && (forall j :: 1 <= j < p ==> IsSchemeChar(s[j]))
    requires p == |s| || !IsSchemeChar(s[p])
    requires SchemeEndsAt(s, i)
    ensures i == p
  {
    assert s[i..i + 3][0] == s[i];
  }

  /** arv_str_is_uri: FALSE for NULL; the scheme scan stops at the first
      character that cannot belong to a scheme, which must start "://". */
  method IsUri(str: Option<seq<char>>) returns (r: bool)
    ensures r <==> str.Some? && IsUriShaped(str.value)
  {
    if str.None? || |str.value| < 4 {
      return false;
    }
    var s := str.value;
    if !IsAsciiLetter(s[0]) {
      return false;
    }
    var p := 1;
    while p < |s| && IsSchemeChar(s[p])
      invariant 1 <= p <= |s|
      invariant forall j :: 1 <= j < p ==> IsSchemeChar(s[j])
    {
      p := p + 1;
    }
    if |s| - p < 3 {
      r := false;
    } else {
      r := s[p] == ':' && s[p + 1] == '/' && s[p + 2] == '/';
      if r {
        assert SchemeEndsAt(s, p);
      }
    }
    if !r {
      forall i | 1 <= i <= |s| - 3 && SchemeEndsAt(s, i)
        ensures false
      {
        SchemeEndIsScanEnd(s, p, i);
      }
    }
  }

  /** "http://www.gnome/org" and "file:///file.txtx" are URIs, "" is not. */
  lemma IsUriExamples()
    ensures IsUriShaped("http://www.gnome/org")
    ensures IsUriShaped("file:///file.txtx")
    ensures !IsUriShaped("")
  {
    var h := "http://www.gnome/org";
    assert h[4..7] == "://";
    assert forall j :: 1 <= j < 4 ==> IsSchemeChar(h[j]);
    assert SchemeEndsAt(h, 4);
    var f := "file:///file.txtx";
    assert f[4..7] == "://";
    assert forall j :: 1 <= j < 4 ==> IsSchemeChar(f[j]);
    assert SchemeEndsAt(f, 4);
  }

  // ---------------------------------------------------------------------
  // arv_str_parse_double: the cursor

  /** The end of the run of digits starting at i. */
  function DigitsEnd(s: seq<char>, i: nat): (e: nat)
    requires i <= |s|
    ensures i <= e <= |s|
    ensures e == |s| || !IsAsciiDigit(s[e])
    decreases |s| - i
  {
    if i < |s| && IsAsciiDigit(s[i]) then DigitsEnd(s, i + 1) else i
  }

  function At(s: seq<char>, i: nat): char
  {
    if i < |s| then s[i] else '\0'
  }

  /** Past an optional '-' or '+'. */
  function SignEnd(s: seq<char>, i: nat): (e: nat)
    requires i <= |s|
    ensures i <= e <= |s|
  {
    if At(s, i) == '-' || At(s, i) == '+' then i + 1 else i
  }

  /** The end of the mantissa: integer digits, an optional point and
      fraction digits, with at least one digit in all; None without any. */
  function MantissaEnd(s: seq<char>, at: nat): (r: Option<nat>)
    requires at <= |s|
    ensures r.Some? ==> at < r.value <= |s|
  {
    var a := SignEnd(s, at);
    var b := DigitsEnd(s, a);
    if At(s, b) != '.' && b == a then None
    else
      var c := if At(s, b) == '.' then b + 1 else b;
      var d := DigitsEnd(s, c);
      if d == c && b == a then None else Some(d)
  }

  /** The end of an exponent starting at d: 'e' or 'E', an optional sign
      and digits; an exponent without digits is not read. */
  function ExponentEnd(s: seq<char>, d: nat): (e: nat)
    requires d <= |s|
    ensures d <= e <= |s|
  {
    if At(s, d) == 'e' || At(s, d) == 'E' then
      var f := SignEnd(s, d + 1);
      var g := DigitsEnd(s, f);
      if g > f then g else d
    else d
  }

  /** Where arv_str_parse_double leaves the cursor, None when it fails. */
  function NumberEnd(s: seq<char>, at: nat): (r: Option<nat>)
    requires at <= |s|
    ensures r.Some? ==> at < r.value <= |s|
  {
    match MantissaEnd(s, at)
    case None => None
    case Some(d) => Some(ExponentEnd(s, d))
  }

  /** The digit loops of the parser. */
  method SkipDigits(s: seq<char>, i: nat) returns (e: nat)
    requires i <= |s|
    ensures e == DigitsEnd(s, i)
  {
    e := i;
    while e < |s| && IsAsciiDigit(s[e])
      invariant i <= e <= |s|
      invariant DigitsEnd(s, e) == DigitsEnd(s, i)
    {
      e := e + 1;
    }
  }

  /** The sign, integer and fraction part of arv_str_parse_double. */
  method ParseMantissa(s: seq<char>, at: nat) returns (ok: bool, c: nat)
    requires at <= |s|
    ensures ok <==> MantissaEnd(s, at).Some?
    ensures ok ==> c == MantissaEnd(s, at).value
  {
    c := at;
    if At(s, c) == '-' || At(s, c) == '+' {
      c := c + 1;
    }
    var a := c;
    c := SkipDigits(s, c);
    var integerPart := c > a;
    if At(s, c) == '.' {
      c := c + 1;
    } else if !integerPart {
      return false, c;
    }
    var b := c;
    c := SkipDigits(s, c);
    var fractionalPart := c > b;
    if !fractionalPart && !integerPart {
      return false, c;
    }
    ok := true;
  }

  /** The exponent part of arv_str_parse_double. */
  method ParseExponent(s: seq<char>, d: nat) returns (end: nat)
    requires d <= |s|
    ensures end == ExponentEnd(s, d)
  {
    var c := d;
    end := d;
    if At(s, c) == 'E' || At(s, c) == 'e' {
      c := c + 1;
      if At(s, c) == '-' || At(s, c) == '+' {
        c := c + 1;
      }
      var f := c;
      c := SkipDigits(s, c);
      if c > f {
        end := c;
      }
    }
  }

  /** arv_str_parse_double's cursor: on failure the cursor does not move. */
  method ParseDouble(s: seq<char>, at: nat) returns (ok: bool, cursor: nat)
    requires at <= |s|
    ensures ok <==> NumberEnd(s, at).Some?
    ensures cursor == if ok then NumberEnd(s, at).value else at
  {
    var d;
    ok, d := ParseMantissa(s, at);
    if !ok {
      return false, at;
    }
    cursor := ParseExponent(s, d);
  }

  /** Parsing fails exactly when there is no digit before or right after
      the point. */
  lemma ParseFailsWithoutDigits(s: seq<char>, at: nat)
    requires at <= |s|
    ensures var a := if At(s, at) == '-' || At(s, at) == '+' then at + 1 else at;
      NumberEnd(s, at).None? <==>
        !IsAsciiDigit(At(s, a)) && !(At(s, a) == '.' && IsAsciiDigit(At(s, a + 1)))
  {
  }

  /** On success the cursor stops at a character that cannot continue the
      number: it is no digit, and it is no point after the digits of a
      number that had none. */
  lemma ParseStopsAtNonNumber(s: seq<char>, at: nat)
    requires at <= |s| && NumberEnd(s, at).Some?
    ensures !IsAsciiDigit(At(s, NumberEnd(s, at).value))
  {
  }

  /** "-10.0" and "+10.0" are read to the end. */
  lemma ParseDoubleSignedExamples()
    ensures NumberEnd("-10.0", 0) == Some(5)
    ensures NumberEnd("+10.0", 0) == Some(5)
  {
    assert DigitsEnd("-10.0", 1) == 3 by {
      assert DigitsEnd("-10.0", 3) == 3;
    }
    assert DigitsEnd("-10.0", 4) == 5;
    assert DigitsEnd("+10.0", 1) == 3 by {
      assert DigitsEnd("+10.0", 3) == 3;
    }
    assert DigitsEnd("+10.0", 4) == 5;
  }

  /** "11.0a" is read up to the 'a'; an exponent without digits is not
      read; a point alone is no number, nor is a sign alone. */
  lemma ParseDoubleStopExamples()
    ensures NumberEnd("11.0a", 0) == Some(4) && "11.0a"[4] == 'a'
    ensures NumberEnd("1e+", 0) == Some(1) && NumberEnd(".5", 0) == Some(2)
    ensures NumberEnd(".", 0) == None && NumberEnd("-x", 0) == None
  {
    assert DigitsEnd("11.0a", 0) == 2 by {
      assert DigitsEnd("11.0a", 2) == 2;
    }
    assert DigitsEnd("11.0a", 3) == 4 by {
      assert DigitsEnd("11.0a", 4) == 4;
    }
    assert DigitsEnd("1e+", 0) == 1;
    assert DigitsEnd("1e+", 3) == 3;
    assert DigitsEnd(".5", 1) == 2;
  }

  /** An exponent with digits is read, and so is a fraction. */
  lemma ParseDoubleExponentExamples()
    ensures NumberEnd("1e3", 0) == Some(3) && NumberEnd("2.5", 0) == Some(3)
  {
    assert DigitsEnd("1e3", 0) == 1;
    assert DigitsEnd("1e3", 2) == 3;
    assert MantissaEnd("1e3", 0) == Some(1);
    assert SignEnd("1e3", 2) == 2;
    assert ExponentEnd("1e3", 1) == 3;
    assert DigitsEnd("2.5", 0) == 1;
    assert DigitsEnd("2.5", 2) == 3;
  }

  // ---------------------------------------------------------------------
  // arv_str_parse_double_list: the cursor

  predicate IsAsciiSpace(c: char)
  {
    c == ' ' || c == '\t' || c == '\n' || c == '\U{000B}' || c == '\U{000C}' || c == '\r'
  }

  /** arv_str_skip_comma_and_spaces: past spaces and commas. */
  function SkipSeparators(s: seq<char>, i: nat): (e: nat)
    requires i <= |s|
    ensures i <= e <= |s|
    ensures e == |s| || !(IsAsciiSpace(s[e]) || s[e] == ',')
    decreases |s| - i
  {
    if i < |s| && (IsAsciiSpace(s[i]) || s[i] == ',') then SkipSeparators(s, i + 1) else i
  }

  method SkipCommaAndSpaces(s: seq<char>, i: nat) returns (e: nat)
    requires i <= |s|
    ensures e == SkipSeparators(s, i)
  {
    e := i;
    while e < |s| && (IsAsciiSpace(s[e]) || s[e] == ',')
      invariant i <= e <= |s|
      invariant SkipSeparators(s, e) == SkipSeparators(s, i)
    {
      e := e + 1;
    }
  }

  /** The number of values the list parser reads from position i on, at
      most n, and where the cursor is after the last one read and the
      separators behind it. */
  function ListParse(s: seq<char>, i: nat, n: nat): (r: (nat, nat))
    requires i <= |s|
    ensures r.0 <= n && i <= r.1 <= |s|
    decreases n, 1
  {
    if n == 0 then (0, i)
    else match NumberEnd(s, i)
      case None => (0, i)
      case Some(e) => ListParseAfter(s, e, n)
  }

  /** ListParse once a first value, ending at e, has been read. */
  function ListParseAfter(s: seq<char>, e: nat, n: nat): (r: (nat, nat))
    requires e <= |s| && n > 0
    ensures 0 < r.0 <= n && e <= r.1 <= |s|
    decreases n, 0
  {
    var rest := ListParse(s, SkipSeparators(s, e), n - 1);
    (rest.0 + 1, rest.1)
  }

  lemma ListParseEmpty(s: seq<char>, i: nat)
    requires i <= |s|
    ensures ListParse(s, i, 0) == (0, i)
  {
  }

  lemma ListParseFail(s: seq<char>, i: nat, n: nat)
    requires i <= |s| && n > 0 && NumberEnd(s, i).None?
    ensures ListParse(s, i, n).0 == 0
  {
  }

  lemma ListParseStep(s: seq<char>, i: nat, n: nat, e: nat)
    requires i <= |s| && n > 0 && NumberEnd(s, i) == Some(e)
    ensures ListParse(s, i, n).0 == ListParse(s, SkipSeparators(s, e), n - 1).0 + 1
    ensures ListParse(s, i, n).1 == ListParse(s, SkipSeparators(s, e), n - 1).1
  {
  }

  /** One round of the loop of arv_str_parse_double_list: a value and the
      separators behind it. When `count` values are left to read and the
      cursor is to end at `end`, one fewer is left after this round. */
  method ParseListItem(s: seq<char>, cursor: nat, k: nat, ghost count: nat, ghost end: nat) returns (ok: bool, next: nat)
    requires cursor <= |s| && k > 0 && ListParse(s, cursor, k) == (count, end)
    ensures next <= |s|
    ensures ok <==> count > 0
    ensures ok ==> ListParse(s, next, k - 1) == (count - 1, end)
  {
    var e;
    ok, e := ParseDouble(s, cursor);
    if !ok {
      ListParseFail(s, cursor, k);
      return false, cursor;
    }
    ListParseStep(s, cursor, k, e);
    next := SkipCommaAndSpaces(s, e);
  }

  /** The loop of arv_str_parse_double_list, from an already skipped
      cursor: it stops at the first value that does not parse. */
  method ParseValues(s: seq<char>, start: nat, nValues: nat) returns (count: nat, cursor: nat)
    requires start <= |s|
    ensures count == ListParse(s, start, nValues).0
    ensures count == nValues ==> cursor == ListParse(s, start, nValues).1
  {
    cursor := start;
    ghost var total := ListParse(s, start, nValues);
    ghost var remaining: nat := total.0;
    var i := 0;
    var left: nat := nValues;
    while i < nValues
      invariant 0 <= i <= nValues && cursor <= |s| && left == nValues - i && remaining + i == total.0
      invariant ListParse(s, cursor, left) == (remaining, total.1)
    {
      var ok, next := ParseListItem(s, cursor, left, remaining, total.1);
      if !ok {
        return i, cursor;
      }
      cursor, left, remaining := next, left - 1, remaining - 1;
      i := i + 1;
    }
    ListParseEmpty(s, cursor);
    count := i;
  }

  /** arv_str_parse_double_list: the count of values parsed; when fewer than
      n_values parse, the cursor goes back to where it was on entry. */
  method ParseDoubleList(s: seq<char>, at: nat, nValues: nat) returns (count: nat, cursor: nat)
    requires at <= |s|
    ensures var r := ListParse(s, SkipSeparators(s, at), nValues);
      count == r.0 && cursor == if count < nValues then at else r.1
  {
    var start := SkipCommaAndSpaces(s, at);
    count, cursor := ParseValues(s, start, nValues);
    if count < nValues {
      cursor := at;
    }
  }

  /** " -10.0 +20.0   " with two values: both parse and the cursor ends
      at the end of the string. */
  lemma ParseDoubleListExample()
    ensures var s := " -10.0 +20.0   ";
      ListParse(s, SkipSeparators(s, 0), 2) == (2, |s|)
  {
    var s := " -10.0 +20.0   ";
    assert SkipSeparators(s, 0) == 1 by {
      assert SkipSeparators(s, 1) == 1;
    }
    assert DigitsEnd(s, 2) == 4 by {
      assert DigitsEnd(s, 4) == 4;
    }
    assert DigitsEnd(s, 5) == 6 by {
      assert DigitsEnd(s, 6) == 6;
    }
    assert MantissaEnd(s, 1) == Some(6);
    assert ExponentEnd(s, 6) == 6;
    assert NumberEnd(s, 1) == Some(6);
    assert SkipSeparators(s, 6) == 7 by {
      assert SkipSeparators(s, 7) == 7;
    }
    assert DigitsEnd(s, 8) == 10 by {
      assert DigitsEnd(s, 10) == 10;
    }
    assert DigitsEnd(s, 11) == 12 by {
      assert DigitsEnd(s, 12) == 12;
    }
    assert MantissaEnd(s, 7) == Some(12);
    assert ExponentEnd(s, 12) == 12;
    assert NumberEnd(s, 7) == Some(12);
    assert SkipSeparators(s, 12) == 15 by {
      assert SkipSeparators(s, 14) == 15;
    }
    assert ListParse(s, 15, 0) == (0, 15);
    assert ListParse(s, 7, 1) == (1, 15);
  }
}
