/**
  Windows command lines: quoting one argument, and the argument-vector rules the quoted form
  must survive. The main result is that joining quoted arguments with spaces and splitting the
  line by those rules gives back the same list, for every list of arguments.
 */
module CommandLine {
  import opened Collections

  predicate Blank(c: char) {
    c == ' ' || c == '\t'
  }

  /** The characters that force quoting: blanks, line feed, vertical tab and the quote itself. */
  predicate NeedsQuoting(c: char) {
    c == ' ' || c == '\t' || c == '\n' || c == '\U{0B}' || c == '"'
  }

  predicate Plain(argument: string) {
    argument != "" && forall c :: c in argument ==> !NeedsQuoting(c)
  }

  function Slashes(n: nat): (s: string)
    ensures |s| == n && forall k :: 0 <= k < n ==> s[k] == '\\'
  {
    seq(n, _ => '\\')
  }

  /** The quoted text of the rest of an argument, `held` backslashes having been read and not yet written. */
  function QuotedRest(rest: string, held: nat): (s: string)
  {
    if rest == "" then Slashes(2 * held) + "\""
    else if rest[0] == '\\' then QuotedRest(rest[1..], held + 1)
    else if rest[0] == '"' then Slashes(2 * held + 1) + "\"" + QuotedRest(rest[1..], 0)
    else Slashes(held) + [rest[0]] + QuotedRest(rest[1..], 0)
  }

  function Quoted(argument: string): (s: string)
  {
    if Plain(argument) then argument else "\"" + QuotedRest(argument, 0)
  }

  /** The loop of the program. */
  method QuoteArgument(argument: string) returns (result: string)
    ensures result == Quoted(argument)
  {
    if Plain(argument) {
      return argument;
    }
    result := "\"";
    var held := 0;
    for i := 0 to |argument|
      invariant Quoted(argument) == result + QuotedRest(argument[i..], held)
    {
      var c := argument[i];
      QuotedStep(argument[i..], held);
      assert argument[i..][1..] == argument[i + 1..];
      if c == '\\' {
        held := held + 1;
      } else if c == '"' {
        result := result + Slashes(held * 2 + 1) + [c];
        held := 0;
      } else {
        result := result + Slashes(held) + [c];
        held := 0;
      }
    }
    assert argument[|argument|..] == "";
    result := result + Slashes(held * 2);
    result := result + "\"";
  }

  /** What one turn of the loop appends. */
  lemma QuotedStep(rest: string, held: nat)
    requires rest != ""
    ensures rest[0] == '\\' ==> QuotedRest(rest, held) == QuotedRest(rest[1..], held + 1)
    ensures rest[0] == '"' ==>
      QuotedRest(rest, held) == (Slashes(held * 2 + 1) + [rest[0]]) + QuotedRest(rest[1..], 0)
    ensures rest[0] != '\\' && rest[0] != '"' ==>
      QuotedRest(rest, held) == (Slashes(held) + [rest[0]]) + QuotedRest(rest[1..], 0)
  {
  }

  // ---- the argument-vector rules ----

  datatype Piece = Piece(text: string, rest: string)

  function Prepend(s: string, p: Piece): Piece {
    Piece(s + p.text, p.rest)
  }

  /**
    One argument of a command line, read up to the blank that ends it. Of a run of backslashes
    before a quote every pair stands for one backslash, and an odd one makes the quote literal;
    other backslashes are literal. Any other quote opens or closes a quoted stretch, in which
    blanks do not end the argument. With `pairs`, two quotes in a row inside a quoted stretch
    stand for one literal quote (the newer C runtime); without it they close and reopen it.
   */
  function NextArgument(line: string, quoted: bool, held: nat, pairs: bool): (p: Piece)
    ensures |p.rest| <= |line|
    ensures line != "" && (quoted || !Blank(line[0])) ==> |p.rest| < |line|
  {
    if line == "" then Piece(Slashes(held), "")
    else if line[0] == '\\' then NextArgument(line[1..], quoted, held + 1, pairs)
    else if line[0] == '"' then
      if held % 2 == 1 then Prepend(Slashes(held / 2) + "\"", NextArgument(line[1..], quoted, 0, pairs))
      else if pairs && quoted && |line| > 1 && line[1] == '"' then
        Prepend(Slashes(held / 2) + "\"", NextArgument(line[2..], quoted, 0, pairs))
      else Prepend(Slashes(held / 2), NextArgument(line[1..], !quoted, 0, pairs))
    else if Blank(line[0]) && !quoted then Piece(Slashes(held), line)
    else Prepend(Slashes(held) + [line[0]], NextArgument(line[1..], quoted, 0, pairs))
  }

  function Split(line: string, pairs: bool): (args: seq<string>)
    decreases |line|
  {
    if line == "" then []
    else if Blank(line[0]) then Split(line[1..], pairs)
    else
      var p := NextArgument(line, false, 0, pairs);
      [p.text] + Split(p.rest, pairs)
  }

  function Join(args: seq<string>): (line: string)
  {
    if args == [] then ""
    else if |args| == 1 then Quoted(args[0])
    else Quoted(args[0]) + " " + Join(args[1..])
  }

  // ---- the round trip ----

  /** What may follow one argument on the line. */
  predicate Ends(tail: string) {
    tail == "" || Blank(tail[0])
  }

  lemma {:induction false} HoldSlashes(n: nat, tail: string, quoted: bool, held: nat, pairs: bool)
    ensures NextArgument(Slashes(n) + tail, quoted, held, pairs) == NextArgument(tail, quoted, held + n, pairs)
  {
    if n == 0 {
      assert Slashes(0) + tail == tail;
    } else {
      assert (Slashes(n) + tail)[1..] == Slashes(n - 1) + tail;
      HoldSlashes(n - 1, tail, quoted, held + 1, pairs);
    }
  }

  /** Reading a quoted rest gives the held backslashes and the rest, and stops at the tail. */
  lemma {:induction false} ReadQuotedRest(rest: string, held: nat, tail: string, pairs: bool)
    requires Ends(tail)
    ensures NextArgument(QuotedRest(rest, held) + tail, true, 0, pairs) == Piece(Slashes(held) + rest, tail)
  {
    if rest == "" {
      ReadClosing(held, tail, pairs);
    } else if rest[0] == '\\' {
      ReadQuotedRest(rest[1..], held + 1, tail, pairs);
      OneMoreSlash(held, rest);
    } else {
      var behind := QuotedRest(rest[1..], 0) + tail;
      ReadQuotedRest(rest[1..], 0, tail, pairs);
      QuotedStep(rest, held);
      ReadCharacter(rest[0], held, behind, pairs);
      var shown := if rest[0] == '"' then Slashes(2 * held + 1) else Slashes(held);
      assert QuotedRest(rest, held) + tail == shown + [rest[0]] + behind;
      NoMoreSlashes(held, rest);
    }
  }

  lemma {:induction false} OneMoreSlash(held: nat, rest: string)
    requires rest != "" && rest[0] == '\\'
    ensures Slashes(held + 1) + rest[1..] == Slashes(held) + rest
  {
  }

  lemma {:induction false} NoMoreSlashes(held: nat, rest: string)
    requires rest != ""
    ensures (Slashes(held) + [rest[0]]) + (Slashes(0) + rest[1..]) == Slashes(held) + rest
  {
  }

  lemma ReadClosing(held: nat, tail: string, pairs: bool)
    requires Ends(tail)
    ensures NextArgument(QuotedRest("", held) + tail, true, 0, pairs) == Piece(Slashes(held) + "", tail)
  {
    var closed := "\"" + tail;
    assert QuotedRest("", held) + tail == Slashes(2 * held) + closed;
    HoldSlashes(2 * held, closed, true, 0, pairs);
    assert closed[1..] == tail;
    assert NextArgument(tail, false, 0, pairs) == Piece("", tail);
    assert |closed| > 1 ==> closed[1] == tail[0];
  }

  /** A character with the backslashes in front of it, inside a quoted stretch. */
  lemma ReadCharacter(c: char, held: nat, behind: string, pairs: bool)
    requires c != '\\'
    ensures var shown := if c == '"' then Slashes(2 * held + 1) else Slashes(held);
      NextArgument(shown + [c] + behind, true, 0, pairs) ==
      Prepend(Slashes(held) + [c], NextArgument(behind, true, 0, pairs))
  {
    var n := if c == '"' then 2 * held + 1 else held;
    assert Slashes(n) + [c] + behind == Slashes(n) + ([c] + behind);
    HoldSlashes(n, [c] + behind, true, 0, pairs);
    assert ([c] + behind)[1..] == behind;
  }

  /** An argument without blanks and quotes is read literally, backslashes included. */
  lemma {:induction false} ReadPlain(argument: string, held: nat, tail: string, pairs: bool)
    requires forall c :: c in argument ==> !NeedsQuoting(c)
    requires Ends(tail)
    ensures NextArgument(argument + tail, false, held, pairs) == Piece(Slashes(held) + argument, tail)
  {
    if argument == "" {
      assert argument + tail == tail;
      assert Slashes(held) + argument == Slashes(held);
    } else {
      assert argument[0] in argument;
      assert (argument + tail)[1..] == argument[1..] + tail;
      if argument[0] == '\\' {
        ReadPlain(argument[1..], held + 1, tail, pairs);
        assert Slashes(held + 1) + argument[1..] == Slashes(held) + argument;
      } else {
        ReadPlain(argument[1..], 0, tail, pairs);
        assert Slashes(held) + [argument[0]] + (Slashes(0) + argument[1..]) == Slashes(held) + argument;
      }
    }
  }

  lemma ReadQuoted(argument: string, tail: string, pairs: bool)
    requires Ends(tail)
    ensures NextArgument(Quoted(argument) + tail, false, 0, pairs) == Piece(argument, tail)
    ensures Quoted(argument) != "" && !Blank(Quoted(argument)[0])
  {
    if Plain(argument) {
      assert argument[0] in argument;
      ReadPlain(argument, 0, tail, pairs);
    } else {
      ReadQuotedRest(argument, 0, tail, pairs);
      assert Slashes(0) + argument == argument;
      AppendAssoc("\"", QuotedRest(argument, 0), tail);
      ReadOpening(QuotedRest(argument, 0) + tail, pairs);
    }
  }

  /** An opening quote is taken, and what follows is read as quoted. */
  lemma {:induction false} ReadOpening(behind: string, pairs: bool)
    ensures NextArgument("\"" + behind, false, 0, pairs) == NextArgument(behind, true, 0, pairs)
  {
    assert ("\"" + behind)[1..] == behind;
  }

  lemma SplitFirst(argument: string, tail: string, pairs: bool)
    requires Ends(tail)
    ensures Split(Quoted(argument) + tail, pairs) == [argument] + Split(tail, pairs)
  {
    ReadQuoted(argument, tail, pairs);
    var line := Quoted(argument) + tail;
    assert line != "" && !Blank(line[0]);
  }

  /** Every list of arguments survives quoting, joining and splitting, under either quote rule. */
  lemma {:induction false} SplitOfJoin(args: seq<string>, pairs: bool)
    ensures Split(Join(args), pairs) == args
  {
    if args != [] {
      var tail := if |args| == 1 then "" else " " + Join(args[1..]);
      assert Join(args) == Quoted(args[0]) + tail;
      SplitFirst(args[0], tail, pairs);
      SplitOfJoin(args[1..], pairs);
      if |args| > 1 {
        assert tail[1..] == Join(args[1..]);
        assert Split(tail, pairs) == Split(tail[1..], pairs);
      }
      assert args == [args[0]] + args[1..];
    }
  }
}
