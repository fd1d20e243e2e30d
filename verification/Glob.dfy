/** The file name matcher of `find`, with the flags it is called with: FNM_PATHNAME and FNM_PERIOD. */
module Glob {
  /** `OverRead`: the match has read past the end of the pattern or of the name. */
  datatype Outcome = Match | NoMatch | OverRead

  // ----- what the code does -----

  /** `fnmatch`. `period`: FNM_PERIOD is set; `lead`: it is, and the name pointer is at the start or after a slash. */
  function Fn(p: string, n: string, period: bool, lead: bool): Outcome
    decreases |p|, |n|, 0
  {
    if p == [] then (if n == [] then Match else NoMatch)
    else if p[0] == '?' then
      if n == [] || n[0] == '/' || (lead && n[0] == '.') then NoMatch else Fn(p[1..], n[1..], period, period && n[0] == '/')
    else if p[0] == '*' then
      if lead && n != [] && n[0] == '.' then NoMatch else Skip(p[1..], n, false)
    else if p == ['\\'] then (if n == [] then OverRead else NoMatch)
    else
      var k := if p[0] == '\\' then 1 else 0;
      if n == [] || n[0] != p[k] then NoMatch else Fn(p[k + 1..], n[1..], period, period && n[0] == '/')
  }

  /** What follows a `*`: every further `*` or `?` takes a character. */
  function Skip(p: string, n: string, past: bool): Outcome
    decreases |p|, |n|, 2
  {
    if p == [] then Match
    else if past then OverRead
    else if p[0] == '?' || p[0] == '*' then
      if (n != [] && n[0] == '/') || (p[0] == '?' && n == []) then NoMatch
      else Skip(p[1..], if n == [] then n else n[1..], n == [])
    else Search(p, n)
  }

  /** Tries the rest of the pattern wherever its first character occurs. */
  function Search(p: string, n: string): Outcome
    requires p != []
    decreases |p|, |n|, 1
  {
    if n == [] then NoMatch
    else
      var r := if First(p, n[0]) then Fn(p, n, false, false) else NoMatch;
      if r == NoMatch then Search(p, n[1..]) else r
  }

  /** The first-character filter: an escape stands for the character after it. */
  predicate First(p: string, c: char)
    requires p != []
  {
    if p[0] == '\\' then |p| > 1 && p[1] == c else p[0] == c
  }

  /** One character of the pattern, `k` pattern characters long, against one of the name. */
  lemma FnStep(p: string, n: string, period: bool, lead: bool, k: nat)
    requires p != [] && p[0] != '*' && k == (if p[0] == '\\' then 1 else 0) < |p|
    ensures var fits := n != [] && if p[0] == '?' then n[0] != '/' && !(lead && n[0] == '.') else n[0] == p[k];
            Fn(p, n, period, lead) == if fits then Fn(p[k + 1..], n[1..], period, period && n[0] == '/') else NoMatch
  {
  }

  /** The code, with the pointers `p` into the pattern and `n` into the name. */
  method Fnmatch(pattern: string, p0: nat, name: string, n0: nat, period: bool) returns (r: Outcome)
    requires p0 <= |pattern| && n0 <= |name|
    ensures r == Fn(pattern[p0..], name[n0..], period, period)
    decreases |pattern| - p0, |name| - n0, 1
  {
    var p, n := p0, n0;
    ghost var lead := period;
    while p < |pattern|
      invariant p0 <= p <= |pattern| && n0 <= n <= |name|
      invariant lead == (period && (n == n0 || name[n - 1] == '/'))
      invariant Fn(pattern[p..], name[n..], period, lead) == Fn(pattern[p0..], name[n0..], period, period)
    {
      var c := pattern[p];
      p := p + 1;
      assert pattern[p - 1..][0] == c && pattern[p - 1..][1..] == pattern[p..];
      ghost var was, here := pattern[p - 1..], name[n..];
      if c == '?' {
        FnStep(was, here, period, lead, 0);
        if n == |name| || name[n] == '/' || (period && name[n] == '.' && (n == n0 || name[n - 1] == '/')) {
          return NoMatch;
        }
      } else if c == '*' {
        if period && n < |name| && name[n] == '.' && (n == n0 || name[n - 1] == '/') {
          return NoMatch;
        }
        r := BehindStar(pattern, p, name, n);
        return;
      } else {
        if c == '\\' {
          if p == |pattern| {
            assert pattern[p - 1..] == ['\\'];
            return if n == |name| then OverRead else NoMatch;
          }
          c := pattern[p];
          p := p + 1;
          FnStep(was, here, period, lead, 1);
          assert was[1] == c && was[2..] == pattern[p..];
        } else {
          FnStep(was, here, period, lead, 0);
        }
        if n == |name| || name[n] != c {
          return NoMatch;
        }
      }
      lead := period && name[n] == '/';
      n := n + 1;
      assert name[n - 1..][1..] == name[n..];
    }
    return if n == |name| then Match else NoMatch;
  }

  /** The loops behind a `*`. */
  method BehindStar(pattern: string, p0: nat, name: string, n0: nat) returns (r: Outcome)
    requires p0 <= |pattern| && n0 <= |name|
    ensures r == Skip(pattern[p0..], name[n0..], false)
    decreases |pattern| - p0, |name| - n0, 3
  {
    var p, n := p0, n0;
    while p < |pattern| && (pattern[p] == '?' || pattern[p] == '*')
      invariant p0 <= p <= |pattern| && n0 <= n <= |name| + 1
      invariant Skip(pattern[p..], if n <= |name| then name[n..] else [], n > |name|) == Skip(pattern[p0..], name[n0..], false)
      decreases |pattern| - p
    {
      if n > |name| {
        return OverRead;
      }
      if (n < |name| && name[n] == '/') || (pattern[p] == '?' && n == |name|) {
        return NoMatch;
      }
      assert pattern[p..][1..] == pattern[p + 1..];
      assert n < |name| ==> name[n..][1..] == name[n + 1..];
      p, n := p + 1, n + 1;
    }
    if p == |pattern| {
      return Match;
    }
    if n > |name| {
      return OverRead;
    }
    r := Find(pattern, p, name, n);
  }

  method Find(pattern: string, p: nat, name: string, n0: nat) returns (r: Outcome)
    requires p < |pattern| && n0 <= |name|
    ensures r == Search(pattern[p..], name[n0..])
    decreases |pattern| - p, |name| - n0, 2
  {
    var n := n0;
    var c := pattern[p];
    while n < |name|
      invariant n0 <= n <= |name| && Search(pattern[p..], name[n..]) == Search(pattern[p..], name[n0..])
    {
      if (c == '\\' && p + 1 < |pattern| && name[n] == pattern[p + 1]) || (c != '\\' && name[n] == c) {
        r := Fnmatch(pattern, p, name, n, false);
        if r != NoMatch {
          return;
        }
      }
      assert name[n..][1..] == name[n + 1..];
      n := n + 1;
    }
    r := NoMatch;
  }

  // ----- patterns and their meaning -----

  datatype Item = Lit(c: char) | Any | Star

  /** A pattern must not end in a lone backslash. */
  predicate Dangling(p: string) {
    p != [] && if p[0] == '\\' then |p| == 1 || Dangling(p[2..]) else Dangling(p[1..])
  }

  function Parse(p: string): seq<Item> {
    if p == [] then []
    else if p[0] == '?' then [Any] + Parse(p[1..])
    else if p[0] == '*' then [Star] + Parse(p[1..])
    else if p[0] == '\\' && |p| > 1 then [Lit(p[1])] + Parse(p[2..])
    else [Lit(p[0])] + Parse(p[1..])
  }

  predicate Covers(x: Item, part: string) {
    match x
    case Lit(c) => part == [c]
    case Any => |part| == 1
    case Star => true
  }

  function Concat(parts: seq<string>): string {
    if parts == [] then [] else parts[0] + Concat(parts[1..])
  }

  ghost predicate IsCover(xs: seq<Item>, parts: seq<string>, n: string) {
    |parts| == |xs| && Concat(parts) == n && forall i :: 0 <= i < |xs| ==> Covers(xs[i], parts[i])
  }

  /** The name is a concatenation of parts covered by the items, one each. */
  ghost predicate Matches(xs: seq<Item>, n: string) {
    exists parts :: IsCover(xs, parts, n)
  }

  /** A leading period is matched by a period that starts the pattern, and by nothing else. */
  predicate PeriodOk(xs: seq<Item>, n: string) {
    n != [] && n[0] == '.' ==> xs != [] && xs[0] == Lit('.')
  }

  /** The meaning of a pattern, for names without slashes. */
  ghost predicate Meant(p: string, n: string) {
    PeriodOk(Parse(p), n) && Matches(Parse(p), n)
  }

  // ----- the same match, item by item -----

  /** `fnmatch` on a parsed pattern, for names without slashes. */
  function FnItems(xs: seq<Item>, n: string, lead: bool): Outcome
    decreases |xs|, |n|, 0
  {
    if xs == [] then (if n == [] then Match else NoMatch)
    else match xs[0]
      case Any => if n == [] || (lead && n[0] == '.') then NoMatch else FnItems(xs[1..], n[1..], false)
      case Star => if lead && n != [] && n[0] == '.' then NoMatch else SkipItems(xs[1..], n, false)
      case Lit(c) => if n == [] || n[0] != c then NoMatch else FnItems(xs[1..], n[1..], false)
  }

  function SkipItems(xs: seq<Item>, n: string, past: bool): Outcome
    decreases |xs|, |n|, 2
  {
    if xs == [] then Match
    else if past then OverRead
    else match xs[0]
      case Any => if n == [] then NoMatch else SkipItems(xs[1..], n[1..], false)
      case Star => if n == [] then SkipItems(xs[1..], n, true) else SkipItems(xs[1..], n[1..], false)
      case Lit(_) => SearchItems(xs, n)
  }

  function SearchItems(xs: seq<Item>, n: string): Outcome
    requires xs != []
    decreases |xs|, |n|, 1
  {
    if n == [] then NoMatch
    else
      var r := if xs[0] == Lit(n[0]) then FnItems(xs, n, false) else NoMatch;
      if r == NoMatch then SearchItems(xs, n[1..]) else r
  }

  lemma ParseFirst(p: string)
    requires p != [] && !Dangling(p)
    ensures Parse(p) != []
    ensures var k := if p[0] == '\\' then 2 else 1; k <= |p| && Parse(p)[1..] == Parse(p[k..]) && !Dangling(p[k..])
    ensures p[0] == '\\' ==> Parse(p)[0] == Lit(p[1])
    ensures p[0] == '?' ==> Parse(p)[0] == Any
    ensures p[0] == '*' ==> Parse(p)[0] == Star
    ensures p[0] !in "\\?*" ==> Parse(p)[0] == Lit(p[0])
  {
  }

  lemma {:induction false} FnParsed(p: string, n: string, period: bool, lead: bool)
    requires !Dangling(p) && '/' !in n
    ensures Fn(p, n, period, lead) == FnItems(Parse(p), n, lead)
    decreases |p|, |n|, 0
  {
    if p != [] {
      ParseFirst(p);
      if p[0] == '*' {
        SkipParsed(p[1..], n, false);
      } else if n != [] {
        FnParsed(p[if p[0] == '\\' then 2 else 1..], n[1..], period, false);
      }
    }
  }

  lemma {:induction false} SkipParsed(p: string, n: string, past: bool)
    requires !Dangling(p) && '/' !in n
    ensures Skip(p, n, past) == SkipItems(Parse(p), n, past)
    decreases |p|, |n|, 2
  {
    if p != [] && !past {
      ParseFirst(p);
      if p[0] == '?' || p[0] == '*' {
        SkipParsed(p[1..], if n == [] then n else n[1..], n == []);
      } else {
        SearchParsed(p, n);
      }
    }
  }

  lemma {:induction false} SearchParsed(p: string, n: string)
    requires p != [] && p[0] !in "?*" && !Dangling(p) && '/' !in n
    ensures Parse(p) != [] && Search(p, n) == SearchItems(Parse(p), n)
    decreases |p|, |n|, 1
  {
    ParseFirst(p);
    if n != [] {
      FnParsed(p, n, false, false);
      SearchParsed(p, n[1..]);
    }
  }

  // ----- matching, one item at a time -----

  lemma MatchesNil(n: string)
    ensures Matches([], n) <==> n == []
  {
    if n == [] {
      assert IsCover([], [], n);
    }
  }

  /** The first item covers some prefix, the other items the rest. */
  lemma MatchesHead(xs: seq<Item>, n: string, k: nat)
    requires xs != [] && k <= |n| && Covers(xs[0], n[..k]) && Matches(xs[1..], n[k..])
    ensures Matches(xs, n)
  {
    var parts :| IsCover(xs[1..], parts, n[k..]);
    var all := [n[..k]] + parts;
    assert all[1..] == parts && Concat(all) == n[..k] + n[k..] == n;
    assert IsCover(xs, all, n);
  }

  lemma HeadMatches(xs: seq<Item>, n: string) returns (k: nat)
    requires xs != [] && Matches(xs, n)
    ensures k <= |n| && Covers(xs[0], n[..k]) && Matches(xs[1..], n[k..])
  {
    var parts :| IsCover(xs, parts, n);
    k := |parts[0]|;
    assert n == parts[0] + Concat(parts[1..]);
    assert n[..k] == parts[0] && n[k..] == Concat(parts[1..]);
    assert IsCover(xs[1..], parts[1..], n[k..]);
  }

  lemma MatchesOne(xs: seq<Item>, n: string)
    requires xs != [] && xs[0] != Star
    ensures Matches(xs, n) <==> n != [] && Covers(xs[0], [n[0]]) && Matches(xs[1..], n[1..])
  {
    if Matches(xs, n) {
      var k := HeadMatches(xs, n);
      assert k == 1 && n[..1] == [n[0]];
    }
    if n != [] && Covers(xs[0], [n[0]]) && Matches(xs[1..], n[1..]) {
      assert n[..1] == [n[0]];
      MatchesHead(xs, n, 1);
    }
  }

  /** A star covers nothing, or a character and more. */
  lemma MatchesStar(xs: seq<Item>, n: string)
    ensures Matches([Star] + xs, n) <==> Matches(xs, n) || (n != [] && Matches([Star] + xs, n[1..]))
  {
    var ys := [Star] + xs;
    assert ys[1..] == xs;
    if Matches(ys, n) {
      var k := HeadMatches(ys, n);
      if k == 0 {
        assert n[0..] == n;
      } else {
        assert n[1..][k - 1..] == n[k..];
        MatchesHead(ys, n[1..], k - 1);
      }
    }
    if Matches(xs, n) {
      assert n[0..] == n;
      MatchesHead(ys, n, 0);
    }
    if n != [] && Matches(ys, n[1..]) {
      var k := HeadMatches(ys, n[1..]);
      assert n[1..][k..] == n[k + 1..];
      MatchesHead(ys, n, k + 1);
    }
  }

  /** A single character behind a star can be taken before it. */
  lemma {:induction false} StarAny(xs: seq<Item>, n: string)
    ensures Matches([Star] + ([Any] + xs), n) <==> n != [] && Matches([Star] + xs, n[1..])
  {
    var ys := [Any] + xs;
    MatchesStar(ys, n);
    MatchesOne(ys, n);
    assert ys[1..] == xs;
    if n != [] {
      StarAny(xs, n[1..]);
      MatchesStar(xs, n[1..]);
    }
  }

  lemma {:induction false} StarAll(n: string)
    ensures Matches([Star], n)
  {
    MatchesNil(n[|n|..]);
    assert [Star][1..] == [];
    MatchesHead([Star], n, |n|);
  }

  // ----- when the code is right -----

  /** No star is followed, after any number of `?`, by another star, unless that one ends the pattern. */
  predicate Fine(xs: seq<Item>) {
    xs == [] || if xs[0] == Star then FineRun(xs[1..]) else Fine(xs[1..])
  }

  predicate FineRun(xs: seq<Item>) {
    xs == [] ||
    match xs[0]
    case Any => FineRun(xs[1..])
    case Star => |xs| == 1
    case Lit(_) => Fine(xs[1..])
  }

  function Answer(b: bool): Outcome {
    if b then Match else NoMatch
  }

  lemma {:induction false} FnRight(xs: seq<Item>, n: string, lead: bool)
    requires Fine(xs)
    ensures FnItems(xs, n, lead) == Answer((lead ==> PeriodOk(xs, n)) && Matches(xs, n))
    decreases |xs|, |n|, 0
  {
    if xs == [] {
      MatchesNil(n);
    } else if xs[0] == Star {
      assert [Star] + xs[1..] == xs;
      SkipRight(xs[1..], n);
    } else {
      MatchesOne(xs, n);
      if n != [] {
        FnRight(xs[1..], n[1..], false);
      }
    }
  }

  lemma {:induction false} SkipRight(xs: seq<Item>, n: string)
    requires FineRun(xs)
    ensures SkipItems(xs, n, false) == Answer(Matches([Star] + xs, n))
    decreases |xs|, |n|, 2
  {
    if xs == [] {
      assert [Star] + xs == [Star];
      StarAll(n);
    } else {
      match xs[0]
      case Any =>
        assert xs == [Any] + xs[1..];
        StarAny(xs[1..], n);
        if n != [] {
          SkipRight(xs[1..], n[1..]);
        }
      case Star =>
        assert xs == [Star] && xs[1..] == [];
        StarAll(n);
        MatchesStar(xs, n);
      case Lit(c) =>
        SearchRight(xs, n);
    }
  }

  lemma {:induction false} SearchRight(xs: seq<Item>, n: string)
    requires xs != [] && xs[0].Lit? && Fine(xs)
    ensures SearchItems(xs, n) == Answer(Matches([Star] + xs, n))
    decreases |xs|, |n|, 1
  {
    MatchesStar(xs, n);
    MatchesOne(xs, n);
    if n != [] {
      FnRight(xs, n, false);
      SearchRight(xs, n[1..]);
    }
  }

  // ----- when it reads behind the end -----

  /** What keeps a pattern from being over-read: in a run of `*` and `?` that begins with a star there is no further star,
      unless it ends the pattern; and a lone backslash at the end stands directly behind such a run. */
  predicate Safe(p: string) {
    p == [] ||
    if p[0] == '?' then Safe(p[1..])
    else if p[0] == '*' then SafeRun(p[1..])
    else if p[0] == '\\' then |p| > 1 && Safe(p[2..])
    else Safe(p[1..])
  }

  predicate SafeRun(p: string) {
    p == [] || p == ['\\'] ||
    if p[0] == '?' then SafeRun(p[1..])
    else if p[0] == '*' then |p| == 1
    else Safe(if p[0] == '\\' then p[2..] else p[1..])
  }

  lemma {:induction false} SafeNever(p: string, n: string, period: bool, lead: bool)
    requires Safe(p)
    ensures Fn(p, n, period, lead) != OverRead
    decreases |p|, |n|, 0
  {
    if p != [] {
      if p[0] == '*' {
        SafeRunNever(p[1..], n);
      } else if n != [] {
        SafeNever(p[if p[0] == '\\' then 2 else 1..], n[1..], period, period && n[0] == '/');
      }
    }
  }

  lemma {:induction false} SafeRunNever(p: string, n: string)
    requires SafeRun(p)
    ensures Skip(p, n, false) != OverRead
    decreases |p|, |n|, 2
  {
    if p != [] {
      if p[0] == '*' {
        assert p[1..] == [];
      } else if p[0] == '?' {
        if n != [] { SafeRunNever(p[1..], n[1..]); }
      } else {
        SafeSearchNever(p, n);
      }
    }
  }

  lemma {:induction false} SafeSearchNever(p: string, n: string)
    requires p != [] && p[0] !in "?*" && (p == ['\\'] || Safe(p))
    ensures Search(p, n) != OverRead
    decreases |p|, |n|, 1
  {
    if n != [] {
      if p != ['\\'] { SafeNever(p, n, false, false); }
      SafeSearchNever(p, n[1..]);
    }
  }

  /** The name spelled by a pattern up to where it is over-read. */
  function Spelled(p: string): string {
    if p == [] || p == ['\\'] then []
    else if p[0] == '?' then ['a'] + Spelled(p[1..])
    else if p[0] == '*' then SpelledRun(p[1..])
    else if p[0] == '\\' then [p[1]] + Spelled(p[2..])
    else [p[0]] + Spelled(p[1..])
  }

  function SpelledRun(p: string): string {
    if p == [] || p[0] == '*' || p == ['\\'] then []
    else if p[0] == '?' then ['a'] + SpelledRun(p[1..])
    else if p[0] == '\\' then [p[1]] + Spelled(p[2..])
    else [p[0]] + Spelled(p[1..])
  }

  lemma {:induction false} SpelledOverRead(p: string, period: bool)
    requires !Safe(p) && '/' !in p
    ensures '/' !in Spelled(p) && Fn(p, Spelled(p), period, false) == OverRead
    decreases |p|, 0
  {
    if p[0] == '*' {
      SpelledRunOverRead(p[1..]);
    } else if p != ['\\'] {
      var rest := p[if p[0] == '\\' then 2 else 1..];
      SpelledOverRead(rest, period);
      assert Spelled(p)[1..] == Spelled(rest);
    }
  }

  lemma {:induction false} SpelledRunOverRead(p: string)
    requires !SafeRun(p) && '/' !in p
    ensures '/' !in SpelledRun(p) && Skip(p, SpelledRun(p), false) == OverRead
    decreases |p|, 1
  {
    var n := SpelledRun(p);
    if p[0] == '*' {
      assert n == [] && p[1..] != [];
      assert Skip(p[1..], n, true) == OverRead;
    } else if p[0] == '?' {
      SpelledRunOverRead(p[1..]);
      assert n[1..] == SpelledRun(p[1..]);
    } else {
      assert n == Spelled(p);
      SpelledOverRead(p, false);
      assert First(p, n[0]);
    }
  }

  /** A slash-free pattern is over-read on some name exactly if it is not safe. */
  lemma OverReadExact(p: string)
    requires '/' !in p
    ensures (exists n :: '/' !in n && Fn(p, n, true, true) == OverRead) <==> !Safe(p)
  {
    if Safe(p) {
      forall n | '/' !in n ensures Fn(p, n, true, true) != OverRead {
        SafeNever(p, n, true, true);
      }
    } else {
      var n := OverReadName(p);
    }
  }

  /** Where the spelled name starts with a period that the pattern has a star before, a character is put in front. */
  lemma OverReadName(p: string) returns (n: string)
    requires !Safe(p) && '/' !in p
    ensures '/' !in n && Fn(p, n, true, true) == OverRead
  {
    n := Spelled(p);
    SpelledOverRead(p, true);
    if p[0] == '*' && n != [] && n[0] == '.' {
      var q := p[1..];
      assert q[0] !in "?*" && !First(q, 'a');
      n := ['a'] + n;
      assert n[1..] == Spelled(p);
      assert Skip(q, n, false) == Search(q, n) == Search(q, n[1..]) == Skip(q, n[1..], false);
    }
  }

  /** For patterns that do not end in a lone backslash, the safe ones are the fine ones. */
  lemma {:induction false} SafeIsFine(p: string)
    requires !Dangling(p)
    ensures Safe(p) <==> Fine(Parse(p))
    ensures SafeRun(p) <==> FineRun(Parse(p))
    decreases |p|
  {
    if p != [] {
      ParseFirst(p);
      SafeIsFine(p[if p[0] == '\\' then 2 else 1..]);
      if p[0] == '*' && |p| > 1 { ParseFirst(p[1..]); }
    }
  }

  /** With the flags of `find`, a fine pattern matches exactly the names it is meant to match, and nothing is over-read. */
  lemma FnmatchRight(p: string, n: string)
    requires Fine(Parse(p)) && !Dangling(p) && '/' !in n
    ensures Fn(p, n, true, true) == Answer(Meant(p, n))
  {
    FnParsed(p, n, true, true);
    FnRight(Parse(p), n, true);
  }

  /** The patterns the code gets right for all names are exactly the fine ones. */
  lemma FnmatchExact(p: string)
    requires !Dangling(p) && '/' !in p
    ensures (forall n :: '/' !in n ==> Fn(p, n, true, true) == Answer(Meant(p, n))) <==> Fine(Parse(p))
  {
    SafeIsFine(p);
    if Fine(Parse(p)) {
      forall n | '/' !in n ensures Fn(p, n, true, true) == Answer(Meant(p, n)) {
        FnmatchRight(p, n);
      }
    } else {
      var n := OverReadName(p);
    }
  }

  /** A double star takes a character of its own. */
  lemma DoubleStar()
    ensures Meant("a**b", "ab") && Fn("a**b", "ab", true, true) == NoMatch
  {
    DoubleStarMeant([Lit('a'), Star, Star, Lit('b')]);
    assert "a**b"[1..] == "**b" && "**b"[1..] == "*b" && "*b"[1..] == "b" && "b"[1..] == "" && "ab"[1..] == "b";
    assert Search("b", "") == NoMatch;
    assert Skip("*b", "b", false) == NoMatch;
  }

  lemma DoubleStarMeant(xs: seq<Item>)
    requires xs == [Lit('a'), Star, Star, Lit('b')]
    ensures Meant("a**b", "ab")
  {
    var p := "a**b";
    assert p[1..] == "**b" && p[1..][1..] == "*b" && "*b"[1..] == "b" && "b"[1..] == "";
    assert Parse("b") == [Lit('b')];
    assert Parse("*b") == [Star, Lit('b')];
    assert Parse("**b") == [Star, Star, Lit('b')];
    assert Parse(p) == xs;
    var parts := ["a", "", "", "b"];
    assert parts[1..] == ["", "", "b"] && ["", "", "b"][1..] == ["", "b"] && ["", "b"][1..] == ["b"] && ["b"][1..] == [];
    assert Concat([]) == "";
    assert Concat(["b"]) == "b" + "" == "b";
    assert Concat(["", "b"]) == "" + "b" == "b";
    assert Concat(["", "", "b"]) == "" + "b" == "b";
    assert IsCover(xs, parts, "ab");
  }

  /** Two stars are enough to read behind the end of a name, a lone backslash to read behind the end of a pattern. */
  lemma BehindTheEnd()
    ensures Fn("a**b", "a", true, true) == OverRead && Fn("a\\", "a", true, true) == OverRead
  {
    assert "a**b"[1..] == "**b" && "**b"[1..] == "*b" && "*b"[1..] == "b" && "a\\"[1..] == "\\" && "a"[1..] == "";
    assert Skip("b", "", true) == OverRead;
    assert Skip("*b", "", false) == OverRead;
    assert Fn("\\", "", true, false) == OverRead;
  }
}
