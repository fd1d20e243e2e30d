/** The argument splitter of the msh shell: it cuts a command line into NUL-terminated arguments, in place. */
module MshSplit {
  const NUL := '\0'
  const QUOTE := '"'
  const ESCAPE := '\\'

  /** FINSH_ARG_MAX. */
  const ARG_MAX := 8

  predicate Blank(c: char) { c == ' ' || c == '\t' }

  // ----- what a line is split into -----

  /** The length of the word a line starts with. */
  function Word(s: string): (k: nat)
    ensures k <= |s|
  {
    if s != [] && !Blank(s[0]) then 1 + Word(s[1..]) else 0
  }

  /** The length of a quoted string up to its closing quote, or to the end of the line; a backslash hides a quote. */
  function Quoted(s: string): (k: nat)
    ensures k <= |s|
  {
    if s == [] || s[0] == QUOTE then 0
    else if s[0] == ESCAPE && |s| > 1 && s[1] == QUOTE then 2 + Quoted(s[2..])
    else 1 + Quoted(s[1..])
  }

  /** The first argument of a line and what follows it. */
  datatype Cut = Done | Cut(arg: string, tail: string)

  function First(line: string): Cut {
    if line == [] then Done
    else if Blank(line[0]) then First(line[1..])
    else if line[0] == QUOTE then
      var s := line[1..];
      var k := Quoted(s);
      Cut(s[..k], if k < |s| then s[k + 1..] else [])
    else
      Cut(line[..Word(line)], line[Word(line)..])
  }

  /** The first `max` arguments of a line. */
  function Split(line: string, max: nat): seq<string>
    decreases max, line
  {
    if max == 0 then []
    else match First(line)
      case Done => []
      case Cut(arg, tail) => [arg] + Split(tail, max - 1)
  }

  // ----- quoting -----

  /** Can be written as it is. */
  predicate Plain(s: string) {
    s != [] && s[0] != QUOTE && forall i :: 0 <= i < |s| ==> !Blank(s[i])
  }

  /** Can be written between quotes: every quote in it is hidden, and it does not hide the closing one. */
  predicate Quotable(s: string) {
    s == [] ||
    if s[0] == QUOTE then false
    else if s[0] == ESCAPE then |s| > 1 && (if s[1] == QUOTE then Quotable(s[2..]) else Quotable(s[1..]))
    else Quotable(s[1..])
  }

  predicate Passable(s: string) { Plain(s) || Quotable(s) }

  function Print(s: string): string {
    if Plain(s) then s else [QUOTE] + s + [QUOTE]
  }

  /** The arguments, quoted where needed and separated by blanks. */
  function Join(args: seq<string>): string {
    if args == [] then [] else if |args| == 1 then Print(args[0]) else Print(args[0]) + [' '] + Join(args[1..])
  }

  lemma {:induction false} QuotedAll(s: string, tail: string)
    requires Quotable(s)
    ensures Quoted(s + [QUOTE] + tail) == |s|
  {
    var t := s + [QUOTE] + tail;
    if s != [] {
      assert t[1..] == s[1..] + [QUOTE] + tail;
      if s[0] == ESCAPE && s[1] == QUOTE {
        assert t[2..] == s[2..] + [QUOTE] + tail;
        QuotedAll(s[2..], tail);
      } else {
        assert s[0] == ESCAPE ==> t[1] == s[1];
        QuotedAll(s[1..], tail);
      }
    }
  }

  lemma {:induction false} WordAll(s: string, tail: string)
    requires (forall i :: 0 <= i < |s| ==> !Blank(s[i])) && (tail == [] || Blank(tail[0]))
    ensures Word(s + tail) == |s|
  {
    if s == [] {
      assert s + tail == tail;
    } else {
      assert (s + tail)[1..] == s[1..] + tail;
      WordAll(s[1..], tail);
    }
  }

  lemma FirstPrinted(s: string, tail: string)
    requires Passable(s) && (tail == [] || Blank(tail[0]))
    ensures First(Print(s) + tail) == Cut(s, tail)
  {
    if Plain(s) { FirstPlain(s, tail); } else { FirstQuoted(s, tail); }
  }

  lemma FirstPlain(s: string, tail: string)
    requires Plain(s) && (tail == [] || Blank(tail[0]))
    ensures First(s + tail) == Cut(s, tail)
  {
    var line := s + tail;
    WordAll(s, tail);
    assert line != [] && line[0] == s[0] && !Blank(line[0]);
    assert line[..|s|] == s && line[|s|..] == tail;
  }

  lemma FirstQuoted(s: string, tail: string)
    requires Quotable(s)
    ensures First([QUOTE] + s + [QUOTE] + tail) == Cut(s, tail)
  {
    hide First, Quoted, Quotable;
    var line, t := [QUOTE] + s + [QUOTE] + tail, s + [QUOTE] + tail;
    QuotedAll(s, tail);
    assert line[0] == QUOTE && line[1..] == t;
    AroundQuote(s, tail);
    FirstQuote(line, t, |s|);
  }

  /** A line that starts with a quote. */
  lemma FirstQuote(line: string, t: string, k: nat)
    requires line != [] && line[0] == QUOTE && line[1..] == t && k == Quoted(t) < |t|
    ensures First(line) == Cut(t[..k], t[k + 1..])
  {
  }

  lemma AroundQuote(s: string, tail: string)
    ensures var t := s + [QUOTE] + tail; |s| < |t| && t[..|s|] == s && t[|s| + 1..] == tail
  {
  }

  /** Splitting undoes quoting. */
  lemma {:induction false} SplitJoined(args: seq<string>, max: nat)
    requires |args| <= max && forall i :: 0 <= i < |args| ==> Passable(args[i])
    ensures Split(Join(args), max) == args
    decreases args
  {
    hide Print, Passable, First;
    SplitEmpty(max);
    if |args| == 1 {
      FirstPrinted(args[0], []);
      assert Print(args[0]) + [] == Print(args[0]);
      SplitEmpty(max - 1);
    } else if |args| > 1 {
      SplitJoined(args[1..], max - 1);
      SplitFirst(args[0], Join(args[1..]), max);
      assert args == [args[0]] + args[1..];
    }
  }

  lemma SplitFirst(s: string, rest: string, max: nat)
    requires Passable(s) && max > 0
    ensures Split(Print(s) + [' '] + rest, max) == [s] + Split(rest, max - 1)
  {
    FirstPrinted(s, [' '] + rest);
    assert Print(s) + [' '] + rest == Print(s) + ([' '] + rest);
    SplitBlank(rest, max - 1);
  }

  lemma SplitBlank(line: string, max: nat)
    ensures Split([' '] + line, max) == Split(line, max)
  {
    assert ([' '] + line)[1..] == line;
    assert First([' '] + line) == First(line);
  }

  // ----- nothing else comes back -----

  /** No quote closes it, though it may end in a backslash. */
  predicate Unclosed(s: string) { Quoted(s) == |s| }

  lemma {:induction false} ClosedQuotable(s: string)
    requires Quoted(s) < |s|
    ensures Quotable(s[..Quoted(s)])
  {
    var t := s[..Quoted(s)];
    if s[0] == QUOTE {
    } else if s[0] == ESCAPE && |s| > 1 && s[1] == QUOTE {
      ClosedQuotable(s[2..]);
      assert t[2..] == s[2..][..Quoted(s[2..])];
    } else {
      ClosedQuotable(s[1..]);
      assert t[1..] == s[1..][..Quoted(s[1..])];
    }
  }

  lemma {:induction false} WordPlain(s: string)
    ensures forall i :: 0 <= i < Word(s) ==> !Blank(s[i])
  {
    if s != [] && !Blank(s[0]) {
      WordPlain(s[1..]);
    }
  }

  /** An argument that lacks its closing quote is the end of the line. */
  ghost predicate OpenEnd(line: string, arg: string) {
    Unclosed(arg) && |arg| < |line| && EndsWith(line, arg)
  }

  lemma {:induction false} FirstPassable(line: string)
    requires First(line).Cut?
    ensures |First(line).tail| < |line| && EndsWith(line, First(line).tail)
    ensures var c := First(line); Passable(c.arg) || (OpenEnd(line, c.arg) && c.tail == [])
  {
    hide Quotable, OpenEnd, EndsWith, Quoted;
    if Blank(line[0]) {
      FirstPassable(line[1..]);
      LaterFirst(line, line[1..], First(line));
    } else if line[0] == QUOTE {
      QuotePassable(line);
    } else {
      WordPassable(line);
    }
  }

  lemma WordPassable(line: string)
    requires line != [] && line[0] != QUOTE && !Blank(line[0])
    ensures var c := First(line); c.Cut? && |c.tail| < |line| && EndsWith(line, c.tail) && Passable(c.arg)
  {
    hide Quotable;
    WordPlain(line);
    assert Word(line) > 0;
  }

  lemma LaterFirst(line: string, rest: string, c: Cut)
    requires line != [] && rest == line[1..] && c.Cut? && |c.tail| < |rest| && EndsWith(rest, c.tail)
    ensures EndsWith(line, c.tail) && (OpenEnd(rest, c.arg) ==> OpenEnd(line, c.arg))
  {
    assert line[|line| - |c.tail|..] == rest[|rest| - |c.tail|..];
    assert EndsWith(line, rest);
    if OpenEnd(rest, c.arg) {
      OpenEndLonger(line, rest, c.arg);
    }
  }

  lemma QuotePassable(line: string)
    requires line != [] && line[0] == QUOTE
    ensures var c := First(line); c.Cut? && |c.tail| < |line| && EndsWith(line, c.tail)
    ensures var c := First(line); Quotable(c.arg) || (OpenEnd(line, c.arg) && c.tail == [])
  {
    hide Quotable;
    var s := line[1..];
    if Quoted(s) < |s| {
      ClosedQuotable(s);
    } else {
      assert s[..|s|] == s;
    }
  }

  /** Every argument is passable, except perhaps a last one that lacks its closing quote. */
  ghost predicate AllPassable(line: string, args: seq<string>) {
    && (forall i :: 0 <= i < |args| - 1 ==> Passable(args[i]))
    && (args != [] ==> Passable(args[|args| - 1]) || OpenEnd(line, args[|args| - 1]))
  }

  lemma PassableMore(line: string, arg: string, tail: string, args: seq<string>)
    requires |tail| < |line| && EndsWith(line, tail) && AllPassable(tail, args)
    requires Passable(arg) || (OpenEnd(line, arg) && args == [])
    ensures AllPassable(line, [arg] + args)
  {
    var all := [arg] + args;
    if args != [] {
      var t := args[|args| - 1];
      assert all[|all| - 1] == t;
      if OpenEnd(tail, t) { OpenEndLonger(line, tail, t); }
    }
  }

  lemma {:induction false} SplitPassable(line: string, max: nat)
    ensures AllPassable(line, Split(line, max))
    decreases max
  {
    hide First, Passable, OpenEnd, EndsWith;
    if max > 0 && First(line).Cut? {
      var Cut(arg, tail) := First(line);
      FirstPassable(line);
      SplitPassable(tail, max - 1);
      SplitEmpty(max - 1);
      SplitCut(line, arg, tail, max);
      PassableMore(line, arg, tail, Split(tail, max - 1));
    }
  }

  lemma SplitCut(line: string, arg: string, tail: string, max: nat)
    requires First(line) == Cut(arg, tail) && max > 0
    ensures Split(line, max) == [arg] + Split(tail, max - 1)
  {
  }

  lemma SplitEmpty(max: nat)
    ensures Split([], max) == []
  {
  }

  lemma OpenEndLonger(line: string, tail: string, arg: string)
    requires |tail| < |line| && EndsWith(line, tail) && OpenEnd(tail, arg)
    ensures OpenEnd(line, arg)
  {
    assert line[|line| - |arg|..] == tail[|tail| - |arg|..];
  }

  ghost predicate EndsWith(line: string, p: string) {
    |p| <= |line| && line[|line| - |p|..] == p
  }

  lemma StillEnds(a: string, b: string, p: string)
    requires EndsWith(b, p)
    ensures EndsWith(a + b, p)
  {
    assert (a + b)[|a + b| - |p|..] == b[|b| - |p|..];
  }

  lemma {:induction false} JoinEnd(args: seq<string>)
    requires args != []
    ensures EndsWith(Join(args), Print(args[|args| - 1]))
  {
    if |args| > 1 {
      JoinEnd(args[1..]);
      StillEnds(Print(args[0]) + [' '], Join(args[1..]), Print(args[|args| - 1]));
    }
  }

  /** An argument list comes back from its line exactly when each argument is passable. */
  lemma SplitExact(args: seq<string>)
    requires |args| <= ARG_MAX
    ensures Split(Join(args), ARG_MAX) == args <==> forall i :: 0 <= i < |args| ==> Passable(args[i])
  {
    if forall i :: 0 <= i < |args| ==> Passable(args[i]) {
      SplitJoined(args, ARG_MAX);
    } else {
      var line := Join(args);
      if Split(line, ARG_MAX) == args {
        SplitPassable(line, ARG_MAX);
        JoinEnd(args);
        LastPassable(line, args);
      }
    }
  }

  lemma LastPassable(line: string, args: seq<string>)
    requires args != [] && AllPassable(line, args)
    requires EndsWith(line, Print(args[|args| - 1]))
    ensures forall i :: 0 <= i < |args| ==> Passable(args[i])
  {
    var s := args[|args| - 1];
    if !Passable(s) { NotOpen(line, s); }
  }

  /** A printed argument is never an open end of the line. */
  lemma NotOpen(line: string, s: string)
    requires EndsWith(line, [QUOTE] + s + [QUOTE])
    requires s != []
    ensures !OpenEnd(line, s)
  {
    assert s[0] == QUOTE ==> Quoted(s) == 0;
    if OpenEnd(line, s) {
      var k, p := |line|, [QUOTE] + s + [QUOTE];
      forall i | 0 <= i < |s| ensures Repeats(s, i) {
        assert s[i] == line[k - |s|..][i] == line[k - |s| + i];
        assert line[k - |s| + i] == line[k - |p|..][i + 2] == p[i + 2];
      }
      AllQuotes(s, 0);
    }
  }

  /** A character is like the next one, the last one is a quote. */
  ghost predicate Repeats(s: string, i: int) {
    0 <= i < |s| && s[i] == if i + 1 < |s| then s[i + 1] else QUOTE
  }

  lemma {:induction false} AllQuotes(s: string, i: nat)
    requires i < |s| && forall j :: 0 <= j < |s| ==> Repeats(s, j)
    ensures s[i] == QUOTE
    decreases |s| - i
  {
    assert Repeats(s, i);
    if i + 1 < |s| { AllQuotes(s, i + 1); }
  }

  // ----- in place -----

  /** `s` is the C string at `a`. */
  ghost predicate IsString(m: seq<char>, a: int, s: string) {
    0 <= a && a + |s| < |m| && m[a..a + |s|] == s && m[a + |s|] == NUL && NUL !in s
  }

  /** `s` lies at `a`, at or before `pos`; its end is marked, or will be when the blank at `pos` is. */
  ghost predicate Placed(m: seq<char>, a: int, s: string, pos: int) {
    && 0 <= a && a + |s| <= pos < |m| && m[a..a + |s|] == s && NUL !in s
    && (if a + |s| < pos then m[a + |s|] == NUL else Blank(m[pos]) || m[pos] == NUL)
  }

  lemma PlacedLater(m: seq<char>, m': seq<char>, a: int, s: string, pos: int, pos': int)
    requires Placed(m, a, s, pos) && |m'| == |m| && pos <= pos' < |m| && m'[..pos] == m[..pos]
    requires m'[pos] == NUL
    ensures IsString(m', a, s) && Placed(m', a, s, pos')
  {
    assert m'[a..a + |s|] == m'[..pos][a..a + |s|] == m[..pos][a..a + |s|];
    assert a + |s| < pos ==> m'[a + |s|] == m'[..pos][a + |s|] == m[..pos][a + |s|];
  }

  /** The blanks a line starts with. */
  method Strip(cmd: array<char>, position: nat, length: nat) returns (p: nat)
    requires position <= length < cmd.Length
    modifies cmd
    ensures position <= p <= length && cmd[..position] == old(cmd[..position]) && cmd[p..] == old(cmd[p..])
    ensures forall i :: position <= i < p ==> old(cmd[i]) != NUL && Blank(old(cmd[i])) && cmd[i] == NUL
    ensures p < length ==> !Blank(cmd[p])
  {
    p := position;
    while p < length && Blank(cmd[p])
      invariant position <= p <= length && cmd[..position] == old(cmd[..position]) && cmd[p..] == old(cmd[p..])
      invariant forall i :: position <= i < p ==> old(cmd[i]) != NUL && Blank(old(cmd[i])) && cmd[i] == NUL
    {
      assert cmd[p] == cmd[p..][0] == old(cmd[p..])[0];
      assert cmd[p + 1..] == cmd[p..][1..] && old(cmd[p + 1..]) == old(cmd[p..])[1..];
      cmd[p] := NUL;
      p := p + 1;
    }
  }

  method WordEnd(cmd: array<char>, position: nat, length: nat) returns (p: nat)
    requires position <= length < cmd.Length
    ensures p == position + Word(cmd[position..length])
  {
    p := position;
    while p < length && !Blank(cmd[p])
      invariant position <= p <= length && position + Word(cmd[position..length]) == p + Word(cmd[p..length])
    {
      assert cmd[p..length][1..] == cmd[p + 1..length];
      p := p + 1;
    }
  }

  /** A backslash is looked behind even at the end of the line, where the terminator follows. */
  method QuoteEnd(cmd: array<char>, position: nat, length: nat) returns (p: nat)
    requires position <= length < cmd.Length && cmd[length] == NUL
    ensures p == position + Quoted(cmd[position..length])
  {
    p := position;
    while p < length && cmd[p] != QUOTE
      invariant position <= p <= length && position + Quoted(cmd[position..length]) == p + Quoted(cmd[p..length])
    {
      assert cmd[p..length][1..] == cmd[p + 1..length];
      if cmd[p] == ESCAPE && cmd[p + 1] == QUOTE {
        assert cmd[p..length][2..] == cmd[p + 2..length];
        p := p + 1;
      }
      p := p + 1;
    }
  }

  /** The line from `pos` on is untouched. */
  ghost predicate Untouched(m: seq<char>, orig: string, pos: int) {
    NUL !in orig && |orig| < |m| && m[|orig|] == NUL && 0 <= pos <= |orig| && m[pos..|orig|] == orig[pos..]
  }

  ghost predicate AllPlaced(m: seq<char>, argv: seq<int>, args: seq<string>, pos: int) {
    |args| <= |argv| && forall i :: 0 <= i < |args| ==> Placed(m, argv[i], args[i], pos)
  }

  ghost predicate AllStrings(m: seq<char>, argv: seq<int>, args: seq<string>) {
    |args| <= |argv| && forall i :: 0 <= i < |args| ==> IsString(m, argv[i], args[i])
  }

  lemma {:induction false} SplitStripped(line: string, k: nat, max: nat)
    requires k <= |line| && forall i :: 0 <= i < k ==> Blank(line[i])
    ensures Split(line[k..], max) == Split(line, max)
  {
    if k > 0 {
      SplitStripped(line[1..], k - 1, max);
      assert line[1..][k - 1..] == line[k..];
      assert First(line) == First(line[1..]);
    } else {
      assert line[0..] == line;
    }
  }

  lemma UntouchedAt(m: seq<char>, orig: string, pos: int, i: int)
    requires Untouched(m, orig, pos) && pos <= i <= |orig|
    ensures Untouched(m, orig, i) && (i < |orig| ==> m[i] == orig[i] != NUL)
  {
    assert m[i..|orig|] == m[pos..|orig|][i - pos..] && orig[i..] == orig[pos..][i - pos..];
    if i < |orig| {
      assert m[i] == m[i..|orig|][0] && orig[i] == orig[i..][0];
      assert orig[i] in orig;
    }
  }

  /** Writing before `p` leaves the line from `p` on untouched. */
  lemma UntouchedLater(m: seq<char>, m': seq<char>, orig: string, pos: int, p: int)
    requires Untouched(m, orig, pos) && |m'| == |m| && pos <= p <= |orig| && m'[p..] == m[p..]
    ensures Untouched(m', orig, p)
  {
    UntouchedAt(m, orig, pos, p);
    assert m'[|orig|] == m'[p..][|orig| - p] == m[p..][|orig| - p];
    assert m'[p..|orig|] == m'[p..][..|orig| - p] == m[p..][..|orig| - p] == m[p..|orig|];
  }

  lemma AfterStrip(m: seq<char>, m': seq<char>, orig: string, argv: seq<int>, args: seq<string>, pos: int, p: int)
    requires Untouched(m, orig, pos) && AllPlaced(m, argv, args, pos) && |m'| == |m| && pos <= p <= |orig|
    requires m'[..pos] == m[..pos] && m'[p..] == m[p..]
    requires forall i :: pos <= i < p ==> m'[i] == NUL
    requires p < |orig| ==> !Blank(m'[p])
    ensures Untouched(m', orig, p) && AllPlaced(m', argv, args, p) && AllStrings(m', argv, args)
  {
    UntouchedLater(m, m', orig, pos, p);
    forall i | 0 <= i < |args| ensures Placed(m', argv[i], args[i], p) && IsString(m', argv[i], args[i]) {
      StripPlaced(m, m', orig, argv[i], args[i], pos, p);
    }
  }

  lemma StripPlaced(m: seq<char>, m': seq<char>, orig: string, a: int, s: string, pos: int, p: int)
    requires Placed(m, a, s, pos) && Untouched(m, orig, pos) && |m| == |m'| && pos <= p <= |orig|
    requires m'[..pos] == m[..pos] && m'[p..] == m[p..] && m'[|orig|] == NUL
    requires forall i :: pos <= i < p ==> m'[i] == NUL
    requires p < |orig| ==> !Blank(m'[p])
    ensures Placed(m', a, s, p) && IsString(m', a, s)
  {
    if pos < p || pos == |orig| {
      PlacedLater(m, m', a, s, pos, p);
    } else {
      assert m' == m'[..pos] + m'[p..] == m[..pos] + m[p..] == m;
      UntouchedAt(m, orig, pos, pos);
    }
  }

  /** What the strip does to the split. */
  lemma StripSplit(m: seq<char>, orig: string, pos: int, p: int, max: nat)
    requires Untouched(m, orig, pos) && pos <= p <= |orig| && forall i :: pos <= i < p ==> Blank(m[i])
    ensures Split(orig[p..], max) == Split(orig[pos..], max)
  {
    var line := orig[pos..];
    forall i | 0 <= i < p - pos ensures Blank(line[i]) {
      UntouchedAt(m, orig, pos, pos + i);
    }
    SplitStripped(line, p - pos, max);
    assert line[p - pos..] == orig[p..];
  }

  /** The word at `p`. */
  lemma WordAt(m: seq<char>, orig: string, p: int, e: int)
    requires Untouched(m, orig, p) && p < |orig| && !Blank(m[p]) && m[p] != QUOTE && e == p + Word(m[p..|orig|])
    ensures p < e <= |orig| && First(orig[p..]) == Cut(orig[p..e], orig[e..]) && Placed(m, p, orig[p..e], e)
  {
    var line := orig[p..];
    UntouchedAt(m, orig, p, p);
    WordEnds(line);
    UntouchedAt(m, orig, p, e);
    assert line[..e - p] == orig[p..e] && line[e - p..] == orig[e..];
    assert m[p..e] == m[p..|orig|][..e - p] == orig[p..e];
  }

  /** The quoted string behind the quote at `p`. */
  lemma QuoteAt(m: seq<char>, orig: string, p: int, e: int)
    requires Untouched(m, orig, p) && p < |orig| && m[p] == QUOTE && e == p + 1 + Quoted(m[p + 1..|orig|])
    ensures p < e <= |orig| && First(orig[p..]) == Cut(orig[p + 1..e], if e < |orig| then orig[e + 1..] else [])
    ensures m[p + 1..e] == orig[p + 1..e] && NUL !in orig[p + 1..e]
  {
    var line, s := orig[p..], orig[p + 1..];
    UntouchedAt(m, orig, p, p);
    UntouchedAt(m, orig, p, p + 1);
    var k := Quoted(s);
    assert line[1..] == s && s[..k] == orig[p + 1..e];
    assert k < |s| ==> s[k + 1..] == orig[e + 1..];
    assert m[p + 1..e] == m[p + 1..|orig|][..k] == s[..k];
  }

  /** The first argument is counted, and the rest of the line split on. */
  lemma NextArg(line: string, args: seq<string>, arg: string, tail: string, max: nat, all: seq<string>)
    requires max > 0 && args + Split(line, max) == all && First(line) == Cut(arg, tail)
    ensures args + [arg] + Split(tail, max - 1) == all
  {
    assert args + [arg] + Split(tail, max - 1) == args + ([arg] + Split(tail, max - 1));
  }

  lemma {:induction false} WordEnds(s: string)
    ensures Word(s) < |s| ==> Blank(s[Word(s)])
    ensures s != [] && !Blank(s[0]) ==> 0 < Word(s)
  {
    if s != [] && !Blank(s[0]) { WordEnds(s[1..]); }
  }

  /** Strings already marked stay as they are while the line behind them is worked on. */
  lemma StringsStay(m: seq<char>, m': seq<char>, argv: seq<int>, argv': seq<int>, args: seq<string>, p: int, e: int)
    requires AllStrings(m, argv, args) && AllPlaced(m, argv, args, p) && 0 <= p < e < |m| == |m'| && !Blank(m[p]) && m[p] != NUL
    requires m'[..p] == m[..p] && |argv'| == |argv| && forall i :: 0 <= i < |args| ==> argv'[i] == argv[i]
    ensures AllPlaced(m', argv', args, e) && AllStrings(m', argv', args)
  {
    forall i | 0 <= i < |args| ensures Placed(m', argv'[i], args[i], e) && IsString(m', argv'[i], args[i]) {
      var a, b := argv[i], argv[i] + |args[i]|;
      assert Placed(m, a, args[i], p) && b < p;
      SameBefore(m, m', p, a, b);
    }
  }

  lemma SameBefore(m: seq<char>, m': seq<char>, p: int, a: int, b: int)
    requires 0 <= a <= b < p <= |m| == |m'| && m'[..p] == m[..p]
    ensures m'[a..b] == m[a..b] && m'[b] == m[b]
  {
    assert m'[a..b] == m'[..p][a..b];
    assert m[a..b] == m[..p][a..b];
    assert m'[b] == m'[..p][b] && m[b] == m[..p][b];
  }

  /** Between two arguments: `args` have been found, the rest is still to be split. */
  ghost predicate Going(m: seq<char>, orig: string, argv: seq<int>, args: seq<string>, pos: int, all: seq<string>) {
    && Untouched(m, orig, pos) && |argv| == ARG_MAX && AllPlaced(m, argv, args, pos)
    && args + Split(orig[pos..], ARG_MAX - |args|) == all
  }

  lemma StripStep(m: seq<char>, m': seq<char>, orig: string, argv: seq<int>, args: seq<string>, pos: int, p: int, all: seq<string>)
    requires Going(m, orig, argv, args, pos, all) && |m'| == |m| && pos <= p <= |orig| && m'[..pos] == m[..pos] && m'[p..] == m[p..]
    requires forall i :: pos <= i < p ==> Blank(m[i]) && m'[i] == NUL
    requires p < |orig| ==> !Blank(m'[p])
    ensures Going(m', orig, argv, args, p, all) && AllStrings(m', argv, args) && (p < |orig| ==> m'[p] != NUL)
  {
    hide Split, AllPlaced, AllStrings;
    var max := ARG_MAX - |args|;
    assert forall i :: pos <= i < p ==> m'[i] == NUL;
    AfterStrip(m, m', orig, argv, args, pos, p);
    assert forall i :: pos <= i < p ==> Blank(m[i]);
    StripSplit(m, orig, pos, p, max);
    UntouchedAt(m', orig, p, p);
    assert args + Split(orig[p..], max) == all;
  }

  /** At the end of the line, or with no room for another argument, everything has been found. */
  lemma StopStep(m: seq<char>, orig: string, argv: seq<int>, args: seq<string>, pos: int, all: seq<string>)
    requires Going(m, orig, argv, args, pos, all) && (pos == |orig| || |args| == ARG_MAX)
    ensures args == all && (pos == |orig| ==> AllStrings(m, argv, args))
  {
    SplitEmpty(ARG_MAX - |args|);
    assert Split(orig[pos..], ARG_MAX - |args|) == [];
    if pos == |orig| {
      forall i | 0 <= i < |args| ensures IsString(m, argv[i], args[i]) {
        assert Placed(m, argv[i], args[i], pos);
      }
    }
  }

  lemma WordStep(m: seq<char>, orig: string, argv: seq<int>, args: seq<string>, p: int, e: int, all: seq<string>)
    requires Going(m, orig, argv, args, p, all) && AllStrings(m, argv, args) && p < |orig| && |args| < ARG_MAX
    requires !Blank(m[p]) && m[p] != QUOTE && m[p] != NUL && e == p + Word(m[p..|orig|])
    ensures p < e <= |orig| && Going(m, orig, argv[|args| := p], args + [orig[p..e]], e, all)
  {
    WordAt(m, orig, p, e);
    NextArg(orig[p..], args, orig[p..e], orig[e..], ARG_MAX - |args|, all);
    UntouchedAt(m, orig, p, e);
    PlaceMore(m, m, argv, args, p, e, p, orig[p..e]);
  }

  /** One more argument behind those already marked. */
  lemma PlaceMore(m: seq<char>, m': seq<char>, argv: seq<int>, args: seq<string>, p: int, e: int, a: int, arg: string)
    requires AllStrings(m, argv, args) && AllPlaced(m, argv, args, p) && 0 <= p < e < |m| == |m'| && !Blank(m[p]) && m[p] != NUL
    requires m'[..p] == m[..p] && |args| < |argv| && Placed(m', a, arg, e)
    ensures AllPlaced(m', argv[|args| := a], args + [arg], e)
  {
    StringsStay(m, m', argv, argv[|args| := a], args, p, e);
  }

  lemma QuoteStep(m: seq<char>, orig: string, argv: seq<int>, args: seq<string>, p: int, e: int, all: seq<string>)
    requires Going(m, orig, argv, args, p, all) && AllStrings(m, argv, args) && p < |orig| && |args| < ARG_MAX
    requires m[p] == QUOTE && e == p + 1 + Quoted(m[p + 1..|orig|])
    ensures p < e <= |orig| && Going(m[e := NUL], orig, argv[|args| := p + 1], args + [orig[p + 1..e]], if e < |orig| then e + 1 else e, all)
  {
    QuoteAt(m, orig, p, e);
    var m', arg, pos := m[e := NUL], orig[p + 1..e], if e < |orig| then e + 1 else e;
    NextArg(orig[p..], args, arg, orig[pos..], ARG_MAX - |args|, all);
    CloseQuote(m, orig, p, e, pos);
    UntouchedAt(m, orig, p, p);
    PlaceMore(m, m', argv, args, p, pos, p + 1, arg);
    assert Untouched(m', orig, pos) && AllPlaced(m', argv[|args| := p + 1], args + [arg], pos);
    assert ARG_MAX - |args + [arg]| == ARG_MAX - |args| - 1;
  }

  /** The closing quote is overwritten, or the terminator stays. */
  lemma CloseQuote(m: seq<char>, orig: string, p: int, e: int, pos: int)
    requires Untouched(m, orig, p) && p < e <= |orig| && pos == (if e < |orig| then e + 1 else e) && NUL !in orig[p + 1..e]
    requires m[p + 1..e] == orig[p + 1..e]
    ensures Untouched(m[e := NUL], orig, pos) && Placed(m[e := NUL], p + 1, orig[p + 1..e], pos)
    ensures m[e := NUL][..p] == m[..p]
  {
    var m' := m[e := NUL];
    if e < |orig| {
      assert m'[pos..] == m[pos..];
      UntouchedLater(m, m', orig, p, pos);
    } else {
      assert m' == m;
      UntouchedAt(m, orig, p, e);
    }
    assert m'[p + 1..e] == m[p + 1..e];
  }

  /** `msh_split`: after it, `argv` points to the arguments of the line, each a C string in the buffer. */
  method MshSplit(cmd: array<char>, length: nat, argv: array<int>) returns (argc: nat)
    requires length < cmd.Length && cmd[length] == NUL && NUL !in cmd[..length] && argv.Length == ARG_MAX
    modifies cmd, argv
    ensures argc == |Split(old(cmd[..length]), ARG_MAX)|
    ensures AllStrings(cmd[..], argv[..], Split(old(cmd[..length]), ARG_MAX))
  {
    ghost var orig := cmd[..length];
    ghost var all := Split(orig, ARG_MAX);
    assert orig[0..] == orig && cmd[..][0..length] == orig;
    var position := 0;
    argc := 0;
    ghost var args := [];
    while position < length
      invariant position <= length && argc == |args| && Going(cmd[..], orig, argv[..], args, position, all)
    {
      var stop;
      position, argc, stop, args := Round(cmd, length, argv, position, argc, orig, args, all);
      if stop {
        return;
      }
    }
    StopStep(cmd[..], orig, argv[..], args, position, all);
  }

  /** One argument. */
  method Round(cmd: array<char>, length: nat, argv: array<int>, pos: nat, argc0: nat, ghost orig: string, ghost args0: seq<string>, ghost all: seq<string>)
    returns (position: nat, argc: nat, stop: bool, ghost args: seq<string>)
    requires pos < length == |orig| < cmd.Length && argc0 == |args0| && argv.Length == ARG_MAX && Going(cmd[..], orig, argv[..], args0, pos, all)
    modifies cmd, argv
    ensures pos < position <= length && argc == |args|
    ensures if stop then args == all && AllStrings(cmd[..], argv[..], all) else Going(cmd[..], orig, argv[..], args, position, all)
  {
    ghost var m := cmd[..];
    var p := Strip(cmd, pos, length);
    StripStep(m, cmd[..], orig, argv[..], args0, pos, p, all);
    args := args0;
    if argc0 >= ARG_MAX || p >= length {
      StopStep(cmd[..], orig, argv[..], args0, p, all);
      return length, argc0, true, args;
    }
    if cmd[p] == QUOTE {
      position, args := TakeQuoted(cmd, length, argv, p, argc0, orig, args0, all);
    } else {
      position, args := TakeWord(cmd, length, argv, p, argc0, orig, args0, all);
    }
    argc, stop := argc0 + 1, false;
  }

  method TakeWord(cmd: array<char>, length: nat, argv: array<int>, p: nat, argc: nat, ghost orig: string, ghost args0: seq<string>, ghost all: seq<string>)
    returns (position: nat, ghost args: seq<string>)
    requires p < length == |orig| < cmd.Length && argc == |args0| < ARG_MAX == argv.Length && !Blank(cmd[p]) && cmd[p] != QUOTE && cmd[p] != NUL
    requires Going(cmd[..], orig, argv[..], args0, p, all) && AllStrings(cmd[..], argv[..], args0)
    modifies argv
    ensures p < position <= length && argc + 1 == |args| && Going(cmd[..], orig, argv[..], args, position, all)
  {
    ghost var av := argv[..];
    position := WordEnd(cmd, p, length);
    assert cmd[p..length] == cmd[..][p..length];
    WordStep(cmd[..], orig, av, args0, p, position, all);
    argv[argc] := p;
    args := args0 + [orig[p..position]];
    assert argv[..] == av[argc := p];
  }

  method TakeQuoted(cmd: array<char>, length: nat, argv: array<int>, p: nat, argc: nat, ghost orig: string, ghost args0: seq<string>, ghost all: seq<string>)
    returns (position: nat, ghost args: seq<string>)
    requires p < length == |orig| < cmd.Length && argc == |args0| < ARG_MAX == argv.Length && cmd[p] == QUOTE
    requires Going(cmd[..], orig, argv[..], args0, p, all) && AllStrings(cmd[..], argv[..], args0)
    modifies cmd, argv
    ensures p < position <= length && argc + 1 == |args| && Going(cmd[..], orig, argv[..], args, position, all)
  {
    ghost var m, av := cmd[..], argv[..];
    var e := QuoteEnd(cmd, p + 1, length);
    assert cmd[p + 1..length] == m[p + 1..length];
    QuoteStep(m, orig, av, args0, p, e, all);
    argv[argc] := p + 1;
    assert argv[..] == av[argc := p + 1] && cmd[..] == m;
    args := args0 + [orig[p + 1..e]];
    position := MarkEnd(cmd, e, length);
  }

  /** Overwrites the closing quote; at the end of the line the terminator is already there. */
  method MarkEnd(cmd: array<char>, e: nat, length: nat) returns (position: nat)
    requires e <= length < cmd.Length && cmd[length] == NUL
    modifies cmd
    ensures cmd[..] == old(cmd[..])[e := NUL] && position == if e < length then e + 1 else e
  {
    position := e;
    if e < length {
      cmd[e] := NUL;
      position := e + 1;
    }
  }
}
