/**
 * The summary endpoint of main.py (`get_student_summary`): the text
 * generator's reply is cleaned by a fixed pipeline and returned together with
 * the student's id and name. The generator itself is not modelled: what it
 * answered (or that it could not be reached) is passed in as a `Reply`.
 */
module Summary {
  import opened Wrappers
  import opened PyText
  import Students

  /** The markup characters, deleted one `replace` at a time in this order: * # + [ ] ( ) */
  predicate IsMarkup(c: char) {
    c == '*' || c == '#' || c == '+' || c == '[' || c == ']' || c == '(' || c == ')'
  }

  predicate MarkupFree(s: string) {
    forall c | c in s :: !IsMarkup(c)
  }

  /** The link prefix deleted after the markup. */
  const Mailto := "mailto:"

  /**
   * Step 1: delete every markup character. The result holds none of them, and
   * every character in it comes from `s`.
   */
  function StripMarkup(s: string): (r: string)
    ensures MarkupFree(r)
    ensures forall c | c in r :: c in s
  {
    var s1 := RemoveAll(s, "*");
    var s2 := RemoveAll(s1, "#");
    var s3 := RemoveAll(s2, "+");
    var s4 := RemoveAll(s3, "[");
    var s5 := RemoveAll(s4, "]");
    var s6 := RemoveAll(s5, "(");
    RemoveAll(s6, ")")
  }

  /** Step 1 deletes nothing but markup: every other character stays, as often as before. */
  lemma StripMarkupKeepsText(s: string, d: char)
    requires !IsMarkup(d)
    ensures multiset(StripMarkup(s))[d] == multiset(s)[d]
  {
    var s1 := RemoveAll(s, "*");
    var s2 := RemoveAll(s1, "#");
    var s3 := RemoveAll(s2, "+");
    var s4 := RemoveAll(s3, "[");
    var s5 := RemoveAll(s4, "]");
    var s6 := RemoveAll(s5, "(");
    RemoveCharKeepsOthers(s, '*', d);
    RemoveCharKeepsOthers(s1, '#', d);
    RemoveCharKeepsOthers(s2, '+', d);
    RemoveCharKeepsOthers(s3, '[', d);
    RemoveCharKeepsOthers(s4, ']', d);
    RemoveCharKeepsOthers(s5, '(', d);
    RemoveCharKeepsOthers(s6, ')', d);
  }

  /** Step 1 works piece by piece. */
  lemma StripMarkupConcat(a: string, b: string)
    ensures StripMarkup(a + b) == StripMarkup(a) + StripMarkup(b)
  {
    var a1, b1 := RemoveAll(a, "*"), RemoveAll(b, "*");
    var a2, b2 := RemoveAll(a1, "#"), RemoveAll(b1, "#");
    var a3, b3 := RemoveAll(a2, "+"), RemoveAll(b2, "+");
    var a4, b4 := RemoveAll(a3, "["), RemoveAll(b3, "[");
    var a5, b5 := RemoveAll(a4, "]"), RemoveAll(b4, "]");
    var a6, b6 := RemoveAll(a5, "("), RemoveAll(b5, "(");
    RemoveCharConcat(a, b, '*');
    RemoveCharConcat(a1, b1, '#');
    RemoveCharConcat(a2, b2, '+');
    RemoveCharConcat(a3, b3, '[');
    RemoveCharConcat(a4, b4, ']');
    RemoveCharConcat(a5, b5, '(');
    RemoveCharConcat(a6, b6, ')');
  }

  /** A line of clean text: not empty, and without whitespace at either end. */
  predicate CleanLine(l: string) {
    l != [] && !IsWhitespace(l[0]) && !IsWhitespace(l[|l| - 1])
  }

  /**
   * Step 3, between split and join: each line stripped, blank ones dropped.
   * What is kept is clean, has no line break if the input lines had none, and
   * only holds characters of the input lines.
   */
  function CleanLines(ls: seq<string>): (r: seq<string>)
    ensures |r| <= |ls|
    ensures forall l | l in r :: CleanLine(l)
    ensures (forall l | l in ls :: NoLineBreak(l)) ==> forall l | l in r :: NoLineBreak(l)
    ensures forall l, c | l in r && c in l :: exists m | m in ls :: c in m
  {
    if ls == [] then []
    else
      var t := Strip(ls[0]);
      var rest := CleanLines(ls[1..]);
      assert forall m | m in ls[1..] :: m in ls;
      assert ls[0] in ls;
      (if t == [] then [] else [t]) + rest
  }

  /** Lines that are already clean pass step 3 unchanged. */
  lemma {:induction false} CleanLinesOfClean(ls: seq<string>)
    requires forall l | l in ls :: CleanLine(l)
    ensures CleanLines(ls) == ls
  {
    if ls != [] {
      assert ls[0] in ls;
      StripNoPadding(ls[0]);
      assert forall l | l in ls[1..] :: l in ls;
      CleanLinesOfClean(ls[1..]);
    }
  }

  /** Step 3 loses no text: every line that is not blank survives, stripped. */
  lemma {:induction false} CleanLinesKeepsLine(ls: seq<string>, i: int)
    requires 0 <= i < |ls| && !AllWhitespace(ls[i])
    ensures Strip(ls[i]) in CleanLines(ls)
  {
    if i > 0 {
      assert ls[i] == ls[1..][i - 1];
      CleanLinesKeepsLine(ls[1..], i - 1);
    }
  }

  /**
   * The sanitiser: markup characters deleted, then "mailto:", then the text
   * split into lines, each line stripped, blank lines dropped and the rest
   * joined with "\n". Apart from the "\n" separators, every character of the
   * result comes from the raw text and is not markup.
   */
  function Sanitize(raw: string): (r: string)
    ensures forall c | c in r :: c == '\n' || (c in raw && !IsMarkup(c))
  {
    var noMarkup := StripMarkup(raw);
    var noMailto := RemoveAll(noMarkup, Mailto);
    var lines := CleanLines(SplitLines(noMailto));
    assert forall l, c | l in lines && c in l :: c in noMailto;
    JoinLines(lines)
  }

  /**
   * Text as the sanitiser leaves it: no markup character, and made of lines
   * that are neither empty nor padded with whitespace, joined by "\n".
   */
  ghost predicate IsClean(text: string) {
    && MarkupFree(text)
    && (forall l | l in SplitLines(text) :: CleanLine(l))
    && JoinLines(SplitLines(text)) == text
  }

  /** Whatever the generator answers, the sanitised text is clean. */
  lemma SanitizeIsClean(raw: string)
    ensures IsClean(Sanitize(raw))
  {
    var noMarkup := StripMarkup(raw);
    var noMailto := RemoveAll(noMarkup, Mailto);
    var lines := CleanLines(SplitLines(noMailto));
    var out := JoinLines(lines);
    assert forall l | l in lines :: l != [] && NoLineBreak(l);
    SplitJoinLines(lines);
  }

  /** Text without markup passes step 1 unchanged. */
  lemma StripMarkupPlain(s: string)
    requires MarkupFree(s)
    ensures StripMarkup(s) == s
  {
    RemoveCharAbsent(s, '*');
    RemoveCharAbsent(s, '#');
    RemoveCharAbsent(s, '+');
    RemoveCharAbsent(s, '[');
    RemoveCharAbsent(s, ']');
    RemoveCharAbsent(s, '(');
    RemoveCharAbsent(s, ')');
  }

  /** A non-empty text holds its first character. */
  lemma HasFirst(s: string)
    ensures s != [] ==> s[0] in s
  {
  }

  /** Text made only of markup vanishes in step 1. */
  lemma StripMarkupAllMarkup(markup: string)
    requires forall c | c in markup :: IsMarkup(c)
    ensures StripMarkup(markup) == []
  {
    var r := StripMarkup(markup);
    HasFirst(r);
  }

  /** Plain text, then markup, then anything: step 1 keeps the plain text and drops the markup. */
  lemma StripMarkupParts(plain: string, markup: string, rest: string)
    requires MarkupFree(plain)
    requires forall c | c in markup :: IsMarkup(c)
    ensures StripMarkup(plain + markup + rest) == plain + StripMarkup(rest)
  {
    calc {
      StripMarkup(plain + markup + rest);
      { StripMarkupConcat(plain + markup, rest); }
      StripMarkup(plain + markup) + StripMarkup(rest);
      { StripMarkupConcat(plain, markup); }
      StripMarkup(plain) + StripMarkup(markup) + StripMarkup(rest);
      { StripMarkupPlain(plain); StripMarkupAllMarkup(markup); }
      plain + [] + StripMarkup(rest);
      { assert plain + [] == plain; }
      plain + StripMarkup(rest);
    }
  }

  /** A leading "\n" opens an empty first line. */
  lemma SplitLinesBlank(rest: string)
    ensures SplitLines("\n" + rest) == [""] + SplitLines(rest)
  {
    assert [] + "\n" + rest == "\n" + rest;
    SplitLinesCons([], rest);
  }

  /** A non-empty, break-free text is a single line. */
  lemma SplitLinesSingle(l: string)
    requires l != [] && NoLineBreak(l)
    ensures SplitLines(l) == [l]
  {
    assert FirstBreak(l) == |l|;
  }

  /** "\n\n\n" is three single line breaks. */
  lemma ThreeBreaks(l1: string, l2: string)
    ensures l1 + "\n\n\n" + l2 == l1 + "\n" + ("\n" + ("\n" + l2))
  {
  }

  /** Three line breaks between two break-free lines make two empty lines. */
  lemma SplitBlankLines(l1: string, l2: string)
    requires l2 != [] && NoLineBreak(l1) && NoLineBreak(l2)
    ensures SplitLines(l1 + "\n\n\n" + l2) == [l1, "", "", l2]
  {
    var tail := "\n" + ("\n" + l2);
    ThreeBreaks(l1, l2);
    SplitLinesCons(l1, tail);
    SplitLinesBlank("\n" + l2);
    SplitLinesBlank(l2);
    SplitLinesSingle(l2);
    assert [l1] + ([""] + ([""] + [l2])) == [l1, "", "", l2];
  }

  /** Step 3 drops a leading blank line. */
  lemma CleanLinesBlank(rest: seq<string>)
    ensures CleanLines([""] + rest) == CleanLines(rest)
  {
    assert ([""] + rest)[1..] == rest;
  }

  /** Step 3 keeps a leading clean line as it is. */
  lemma CleanLinesKeep(l: string, rest: seq<string>)
    requires CleanLine(l)
    ensures CleanLines([l] + rest) == [l] + CleanLines(rest)
  {
    assert ([l] + rest)[0] == l && ([l] + rest)[1..] == rest;
    StripNoPadding(l);
  }

  /** Four lines, taken one at a time. */
  lemma FourLines(l1: string, l2: string)
    ensures [l1, "", "", l2] == [l1] + ([""] + ([""] + ([l2] + [])))
  {
  }

  /** Two blank lines between two clean lines are dropped by step 3. */
  lemma CleanBlankLines(l1: string, l2: string)
    requires CleanLine(l1) && CleanLine(l2)
    ensures CleanLines([l1, "", "", l2]) == [l1, l2]
  {
    FourLines(l1, l2);
    CleanLinesKeep(l1, [""] + ([""] + ([l2] + [])));
    CleanLinesBlank([""] + ([l2] + []));
    CleanLinesBlank([l2] + []);
    CleanLinesKeep(l2, []);
  }

  /** Three line breaks between two clean, break-free lines collapse into one. */
  lemma CollapseBlankLines(l1: string, l2: string)
    requires CleanLine(l1) && NoLineBreak(l1)
    requires CleanLine(l2) && NoLineBreak(l2)
    ensures JoinLines(CleanLines(SplitLines(l1 + "\n\n\n" + l2))) == l1 + "\n" + l2
  {
    SplitBlankLines(l1, l2);
    CleanBlankLines(l1, l2);
  }

  /** A worked example: markup and "mailto:" go, and the blank lines collapse. */
  lemma SanitizeExample()
    ensures Sanitize("Name: **John** [Doe] (mailto:j@x.com)\n\n\nAge: 30") == "Name: John Doe j@x.com\nAge: 30"
  {
    calc {
      Sanitize("Name: **John** [Doe] (mailto:j@x.com)\n\n\nAge: 30");
      JoinLines(CleanLines(SplitLines(RemoveAll(StripMarkup("Name: **John** [Doe] (mailto:j@x.com)\n\n\nAge: 30"), Mailto))));
      { ExampleMarkup(); }
      JoinLines(CleanLines(SplitLines(RemoveAll("Name: John Doe mailto:j@x.com\n\n\nAge: 30", Mailto))));
      { ExampleLink(); }
      JoinLines(CleanLines(SplitLines("Name: John Doe j@x.com\n\n\nAge: 30")));
      { ExampleLines(); }
      "Name: John Doe j@x.com\nAge: 30";
    }
  }

  /** The example input, cut at its emphasis. */
  lemma ExampleRawText()
    ensures "Name: **John** [Doe] (mailto:j@x.com)\n\n\nAge: 30" == "Name: " + "**" + "John" + "**" + " [Doe] (mailto:j@x.com)\n\n\nAge: 30"
  {
  }

  /** The rest of the input, cut at its brackets. */
  lemma ExampleBracketsText()
    ensures " [Doe] (mailto:j@x.com)\n\n\nAge: 30" == " " + "[" + "Doe" + "]" + " (mailto:j@x.com)\n\n\nAge: 30"
  {
  }

  /** The rest of the input, cut at its parentheses. */
  lemma ExampleParenthesesText()
    ensures " (mailto:j@x.com)\n\n\nAge: 30" == " " + "(" + "mailto:j@x.com" + ")" + "\n\n\nAge: 30"
  {
  }

  /** The text after step 1 without its first name, put together. */
  lemma ExampleAfterEmphasisText()
    ensures " " + "Doe" + (" " + "mailto:j@x.com" + "\n\n\nAge: 30") == " Doe mailto:j@x.com\n\n\nAge: 30"
  {
  }

  /** The text after step 1, put together. */
  lemma ExampleMarkupText()
    ensures "Name: " + "John" + " Doe mailto:j@x.com\n\n\nAge: 30" == "Name: John Doe mailto:j@x.com\n\n\nAge: 30"
  {
  }

  /** The text after step 1, cut at the link. */
  lemma ExampleMarkedText()
    ensures "Name: John Doe mailto:j@x.com\n\n\nAge: 30" == "Na" + "me: John Doe " + Mailto + "j@x.com\n\n\nAge: 30"
  {
  }

  /** The text after step 2, cut at the link and at the blank lines. */
  lemma ExampleLinkText()
    ensures "Name: John Doe j@x.com\n\n\nAge: 30" == "Na" + "me: John Doe " + "j@x.com\n\n\nAge: 30"
    ensures "Name: John Doe j@x.com\n\n\nAge: 30" == "Name: John Doe j@x.com" + "\n\n\n" + "Age: 30"
  {
  }

  /** The address, cut at its "m". */
  lemma ExampleAddressText()
    ensures "j@x.com\n\n\nAge: 30" == "j@x.co" + ("m\n\n\nAge: 30" + [])
    ensures "m\n\n\nAge: 30"[1..] + [] == "\n\n\nAge: 30"
    ensures "j@x.co" + ("m" + "\n\n\nAge: 30") == "j@x.com\n\n\nAge: 30"
  {
  }

  /** The result, cut at its line break. */
  lemma ExampleResultText()
    ensures "Name: John Doe j@x.com\nAge: 30" == "Name: John Doe j@x.com" + "\n" + "Age: 30"
  {
  }

  /** The example's link step. */
  lemma ExampleLink()
    ensures RemoveAll("Name: John Doe mailto:j@x.com\n\n\nAge: 30", Mailto) == "Name: John Doe j@x.com\n\n\nAge: 30"
  {
    ExampleMarkedText();
    ExampleLinkText();
    ExampleAddress();
    ExampleLinkPieces();
    ExampleMailto("Na", "me: John Doe ", "j@x.com\n\n\nAge: 30");
  }

  /** The pieces before the link hold no "mailto:" and no "m" that could start one. */
  lemma ExampleLinkPieces()
    ensures 'm' !in "Na"
    ensures |"me: John Doe "| >= 2 && "me: John Doe "[0] == 'm' && "me: John Doe "[1] != 'a'
    ensures 'm' !in "me: John Doe "[1..]
  {
  }

  /** The address after the link holds an "m" but no "mailto:". */
  lemma ExampleAddress()
    ensures RemoveAll("j@x.com\n\n\nAge: 30", Mailto) == "j@x.com\n\n\nAge: 30"
  {
    ExampleAddressText();
    calc {
      RemoveAll("j@x.com\n\n\nAge: 30", Mailto);
      RemoveAll("j@x.co" + ("m\n\n\nAge: 30" + []), Mailto);
      { RemoveAllSkip("j@x.co", "m\n\n\nAge: 30" + [], Mailto); }
      "j@x.co" + RemoveAll("m\n\n\nAge: 30" + [], Mailto);
      { MailtoNotHere("m\n\n\nAge: 30", []); }
      "j@x.co" + ("m" + RemoveAll("\n\n\nAge: 30", Mailto));
      { RemoveAllUntouched("\n\n\nAge: 30", Mailto); }
      "j@x.co" + ("m" + "\n\n\nAge: 30");
    }
  }

  /** The example's line step. */
  lemma ExampleLines()
    ensures JoinLines(CleanLines(SplitLines("Name: John Doe j@x.com\n\n\nAge: 30"))) == "Name: John Doe j@x.com\nAge: 30"
  {
    ExampleLinkText();
    ExampleResultText();
    CollapseBlankLines("Name: John Doe j@x.com", "Age: 30");
  }

  /** The example's markup step. */
  lemma ExampleMarkup()
    ensures StripMarkup("Name: **John** [Doe] (mailto:j@x.com)\n\n\nAge: 30") == "Name: John Doe mailto:j@x.com\n\n\nAge: 30"
  {
    ExampleEmphasis();
    ExampleAfterEmphasis();
    ExampleMarkupText();
  }

  /** The example after "**John**": the brackets and parentheses go. */
  lemma ExampleAfterEmphasis()
    ensures StripMarkup(" [Doe] (mailto:j@x.com)\n\n\nAge: 30") == " Doe mailto:j@x.com\n\n\nAge: 30"
  {
    calc {
      StripMarkup(" [Doe] (mailto:j@x.com)\n\n\nAge: 30");
      { ExampleBrackets(); }
      " " + "Doe" + StripMarkup(" (mailto:j@x.com)\n\n\nAge: 30");
      { ExampleParentheses(); }
      " " + "Doe" + (" " + "mailto:j@x.com" + StripMarkup("\n\n\nAge: 30"));
      { StripMarkupPlain("\n\n\nAge: 30"); }
      " " + "Doe" + (" " + "mailto:j@x.com" + "\n\n\nAge: 30");
      { ExampleAfterEmphasisText(); }
      " Doe mailto:j@x.com\n\n\nAge: 30";
    }
  }

  /** The example's "**John**". */
  lemma ExampleEmphasis()
    ensures StripMarkup("Name: **John** [Doe] (mailto:j@x.com)\n\n\nAge: 30") == "Name: " + "John" + StripMarkup(" [Doe] (mailto:j@x.com)\n\n\nAge: 30")
  {
    ExampleRawText();
    MarkupPair("Name: ", "**", "John", "**", " [Doe] (mailto:j@x.com)\n\n\nAge: 30");
  }

  /** The example's "[Doe]". */
  lemma ExampleBrackets()
    ensures StripMarkup(" [Doe] (mailto:j@x.com)\n\n\nAge: 30") == " " + "Doe" + StripMarkup(" (mailto:j@x.com)\n\n\nAge: 30")
  {
    ExampleBracketsText();
    MarkupPair(" ", "[", "Doe", "]", " (mailto:j@x.com)\n\n\nAge: 30");
  }

  /** The example's "(mailto:j@x.com)". */
  lemma ExampleParentheses()
    ensures StripMarkup(" (mailto:j@x.com)\n\n\nAge: 30") == " " + "mailto:j@x.com" + StripMarkup("\n\n\nAge: 30")
  {
    ExampleParenthesesText();
    MarkupPair(" ", "(", "mailto:j@x.com", ")", "\n\n\nAge: 30");
  }

  /** Two plain pieces, each followed by markup: step 1 keeps both pieces. */
  lemma MarkupPair(a: string, m1: string, b: string, m2: string, rest: string)
    requires MarkupFree(a) && MarkupFree(b)
    requires forall c | c in m1 :: IsMarkup(c)
    requires forall c | c in m2 :: IsMarkup(c)
    ensures StripMarkup(a + m1 + b + m2 + rest) == a + b + StripMarkup(rest)
  {
    assert a + m1 + b + m2 + rest == a + m1 + (b + m2 + rest);
    StripMarkupParts(a, m1, b + m2 + rest);
    StripMarkupParts(b, m2, rest);
    assert a + (b + StripMarkup(rest)) == a + b + StripMarkup(rest);
  }

  /** The example's link step: the one "mailto:" goes and all else stays. */
  lemma ExampleMailto(a1: string, a2: string, t: string)
    requires 'm' !in a1 && RemoveAll(t, Mailto) == t
    requires |a2| >= 2 && a2[0] == 'm' && a2[1] != 'a' && 'm' !in a2[1..]
    ensures RemoveAll(a1 + a2 + Mailto + t, Mailto) == a1 + a2 + t
  {
    var rest := Mailto + t;
    assert a1 + a2 + Mailto + t == a1 + (a2 + rest);
    assert a2 == [a2[0]] + a2[1..];
    calc {
      RemoveAll(a1 + (a2 + rest), Mailto);
      { RemoveAllSkip(a1, a2 + rest, Mailto); }
      a1 + RemoveAll(a2 + rest, Mailto);
      { MailtoNotHere(a2, rest); }
      a1 + ([a2[0]] + RemoveAll(a2[1..] + rest, Mailto));
      { RemoveAllSkip(a2[1..], rest, Mailto); }
      a1 + ([a2[0]] + (a2[1..] + RemoveAll(rest, Mailto)));
      { RemoveAllLeading(Mailto, t); }
      a1 + ([a2[0]] + (a2[1..] + RemoveAll(t, Mailto)));
      a1 + ([a2[0]] + (a2[1..] + t));
    }
  }

  /** "m" followed by anything but "a" cannot start "mailto:". */
  lemma MailtoNotHere(a: string, rest: string)
    requires |a| >= 2 && a[0] == 'm' && a[1] != 'a'
    ensures RemoveAll(a + rest, Mailto) == [a[0]] + RemoveAll(a[1..] + rest, Mailto)
  {
    var m := a + rest;
    assert m[1] == a[1];
    assert m[1..] == a[1..] + rest;
    if |m| >= 7 {
      assert m[..7][1] != Mailto[1];
    }
  }

  /**
   * `replace` runs once: deleting "mailto:" can bring a new "mailto:" together,
   * so the sanitised text may still contain it.
   */
  lemma MailtoMaySurvive()
    ensures RemoveAll("mamailto:ilto:", Mailto) == "mailto:"
  {
    var s := "mamailto:ilto:";
    assert s[..7][2] != Mailto[2];
    assert s[1..][..7][1] != Mailto[1];
    assert s[2..][..7] == Mailto;
    assert s[1..][1..] == s[2..] && s[2..][7..] == "ilto:";
    calc {
      RemoveAll(s, Mailto);
      ['m'] + RemoveAll(s[1..], Mailto);
      ['m'] + (['a'] + RemoveAll(s[2..], Mailto));
      ['m'] + (['a'] + RemoveAll("ilto:", Mailto));
      "mailto:";
    }
  }

  // ------------------------------------------------------- the endpoint

  /** The summary returned to the client. */
  datatype StudentSummary = StudentSummary(studentId: int, name: string, formattedSummary: string)

  /** What the text generator did: not reachable, or an HTTP status with its `response` text. */
  datatype Reply = Unreachable | Replied(status: int, response: string)

  /** Why no summary was returned: no such student, or the generator failed or was unreachable. */
  datatype SummaryError = StudentNotFound | GenerationFailed | GenerationUnavailable

  /**
   * `get_student_summary`: the student is looked up first; only then is the
   * generator's reply considered. A summary is returned exactly when the
   * student exists and the generator answered with status 200; it carries the
   * requested id, the stored name and the sanitised text, which is clean.
   */
  method GetStudentSummary(db: Students.StudentDB, studentId: int, reply: Reply)
    returns (r: Result<StudentSummary, SummaryError>)
    requires db.Valid()
    ensures studentId !in db.students ==> r == Failure(StudentNotFound)
    ensures studentId in db.students && reply.Unreachable? ==> r == Failure(GenerationUnavailable)
    ensures studentId in db.students && reply.Replied? && reply.status != 200 ==> r == Failure(GenerationFailed)
    ensures r.Success? <==> studentId in db.students && reply.Replied? && reply.status == 200
    ensures r.Success? ==> r.value.studentId == studentId && r.value.name == db.students[studentId].name
    ensures r.Success? ==> r.value.formattedSummary == Sanitize(reply.response) && IsClean(r.value.formattedSummary)
  {
    var student := db.GetStudent(studentId);
    if student.None? {
      return Failure(StudentNotFound);
    }
    match reply
    case Unreachable =>
      r := Failure(GenerationUnavailable);
    case Replied(status, response) =>
      if status != 200 {
        return Failure(GenerationFailed);
      }
      var summary := Sanitize(response);
      SanitizeIsClean(response);
      r := Success(StudentSummary(studentId, student.value.name, summary));
  }
}
