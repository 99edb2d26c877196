/** The `$`/`§` translators of division/entry.py. Players type `$` where the
    game wants the formatting character `§`, and `$$` for a literal `$`;
    `interpreter` turns typed text into stored text and `reverse_interpreter`
    turns stored text back into typed text for the edit suggestion. */
module Text {

  const Dollar: char := '$'
  const Section: char := '§'

  /** Python's `str.replace(pat, rep)`: every occurrence of `pat`, scanning
      left to right without overlaps, is replaced by `rep`. */
  function Replace(s: string, pat: string, rep: string): string
    requires pat != []
    decreases |s|
  {
    if |s| < |pat| then s
    else if s[..|pat|] == pat then rep + Replace(s[|pat|..], pat, rep)
    else [s[0]] + Replace(s[1..], pat, rep)
  }

  /** `interpreter(text)`. */
  function Interpreter(text: string): string {
    Replace(Replace(text, [Dollar], [Section]), [Section, Section], [Dollar])
  }

  /** `reverse_interpreter(text)`. */
  function ReverseInterpreter(text: string): string {
    Replace(Replace(text, [Dollar], [Dollar, Dollar]), [Section], [Dollar])
  }

  /** Replacing one character works character by character. */
  lemma ReplaceCharCons(x: char, s: string, c: char, rep: string)
    ensures Replace([x] + s, [c], rep) == (if x == c then rep else [x]) + Replace(s, [c], rep)
  {
    assert ([x] + s)[..1] == [x];
    assert ([x] + s)[1..] == s;
  }

  lemma {:induction false} ReplaceCharConcat(a: string, b: string, c: char, rep: string)
    ensures Replace(a + b, [c], rep) == Replace(a, [c], rep) + Replace(b, [c], rep)
    decreases |a|
  {
    if a == [] {
      assert a + b == b;
    } else {
      assert a + b == [a[0]] + (a[1..] + b);
      assert a == [a[0]] + a[1..];
      ReplaceCharCons(a[0], a[1..] + b, c, rep);
      ReplaceCharCons(a[0], a[1..], c, rep);
      ReplaceCharConcat(a[1..], b, c, rep);
    }
  }

  lemma {:induction false} ReplaceCharRemoves(s: string, c: char, rep: string)
    requires c !in rep
    ensures c !in Replace(s, [c], rep)
    decreases |s|
  {
    if s != [] {
      assert s == [s[0]] + s[1..];
      ReplaceCharCons(s[0], s[1..], c, rep);
      ReplaceCharRemoves(s[1..], c, rep);
    }
  }

  /** Stored text shown for editing never contains `§`: every `§` became `$`. */
  lemma NoSectionInReverse(text: string)
    ensures Section !in ReverseInterpreter(text)
  {
    ReplaceCharRemoves(Replace(text, [Dollar], [Dollar, Dollar]), Section, [Dollar]);
  }

  /** `reverse_interpreter` works on each part of a concatenation separately. */
  lemma ReverseConcat(a: string, b: string)
    ensures ReverseInterpreter(a + b) == ReverseInterpreter(a) + ReverseInterpreter(b)
  {
    ReplaceCharConcat(a, b, Dollar, [Dollar, Dollar]);
    ReplaceCharConcat(Replace(a, [Dollar], [Dollar, Dollar]), Replace(b, [Dollar], [Dollar, Dollar]), Section, [Dollar]);
  }

  /** What `reverse_interpreter` makes of a single character. */
  lemma ReverseChar(x: char)
    ensures ReverseInterpreter([x]) ==
      if x == Dollar then [Dollar, Dollar] else if x == Section then [Dollar] else [x]
  {
    assert [x] + [] == [x];
    ReplaceCharCons(x, [], Dollar, [Dollar, Dollar]);
    assert Replace([], [Dollar], [Dollar, Dollar]) == [];
    if x == Dollar {
      assert Replace([x], [Dollar], [Dollar, Dollar]) == [Dollar, Dollar];
      assert [Dollar, Dollar] == [Dollar] + [Dollar];
      assert [Dollar] == [Dollar] + [];
      ReplaceCharCons(Dollar, [Dollar], Section, [Dollar]);
      ReplaceCharCons(Dollar, [], Section, [Dollar]);
      assert Replace([], [Section], [Dollar]) == [];
    } else {
      ReplaceCharCons(x, [], Section, [Dollar]);
    }
  }

  /** `interpreter` on `§`-free text, one leading token at a time: an
      ordinary character is kept, `$$` becomes `$`, and a lone `$` becomes `§`. */
  lemma InterpreterStep(text: string)
    requires Section !in text && text != []
    ensures text[0] != Dollar ==> Interpreter(text) == [text[0]] + Interpreter(text[1..])
    ensures |text| >= 2 && text[0] == Dollar && text[1] == Dollar ==>
      Interpreter(text) == [Dollar] + Interpreter(text[2..])
    ensures text[0] == Dollar && (|text| == 1 || text[1] != Dollar) ==>
      Interpreter(text) == [Section] + Interpreter(text[1..])
  {
    var x := text[0];
    var rest := text[1..];
    assert text == [x] + rest;
    ReplaceCharCons(x, rest, Dollar, [Section]);
    var u' := Replace(rest, [Dollar], [Section]);
    if x != Dollar {
      var u := [x] + u';
      if |u| >= 2 {
        assert u[0] == x && x in text;
        assert u[..2][0] != Section;
        assert u[1..] == u';
      }
    } else if |text| >= 2 && text[1] == Dollar {
      assert rest == [Dollar] + text[2..];
      ReplaceCharCons(Dollar, text[2..], Dollar, [Section]);
      var u := [Section] + u';
      assert u[..2] == [Section, Section];
      assert u[2..] == Replace(text[2..], [Dollar], [Section]);
    } else {
      var u := [Section] + u';
      if rest != [] {
        assert rest == [rest[0]] + rest[1..];
        ReplaceCharCons(rest[0], rest[1..], Dollar, [Section]);
        assert u'[0] == rest[0] && rest[0] == text[1];
        assert text[1] in text;
        assert u[..2][1] != Section;
        assert u[1..] == u';
      }
    }
  }

  /** The edit suggestion round trip: on text without `§`,
      `reverse_interpreter` undoes `interpreter`. */
  lemma {:induction false} ReverseUndoesInterpreter(text: string)
    requires Section !in text
    ensures ReverseInterpreter(Interpreter(text)) == text
    decreases |text|
  {
    if text == [] {
    } else {
      InterpreterStep(text);
      if text[0] != Dollar {
        ReverseUndoesInterpreter(text[1..]);
        ReverseConcat([text[0]], Interpreter(text[1..]));
        ReverseChar(text[0]);
        assert text == [text[0]] + text[1..];
      } else if |text| >= 2 && text[1] == Dollar {
        ReverseUndoesInterpreter(text[2..]);
        ReverseConcat([Dollar], Interpreter(text[2..]));
        ReverseChar(Dollar);
        assert text == [Dollar, Dollar] + text[2..];
      } else {
        ReverseUndoesInterpreter(text[1..]);
        ReverseConcat([Section], Interpreter(text[1..]));
        ReverseChar(Section);
        assert text == [Dollar] + text[1..];
      }
    }
  }
}
