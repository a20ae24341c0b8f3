/**
 * Server ACL globs. A glob is rewritten into an anchored, case-insensitive regular expression in which
 * every run of wildcards has become one quantifier; the rewriting must not change which server names match.
 */
module AclGlob {
  import opened Basics

  /** The fragments globToRegex emits: quoted literal text, and ".{n}" or ".{n,}". */
  datatype Fragment = Literal(text: string) | Any(count: nat, open: bool)

  const MAX_REPEAT := 1000

  function Fold(c: char): char {
    if 'A' <= c <= 'Z' then ((c as int) + 32) as char else c
  }

  /** Two characters fold alike exactly if they are equal or the two cases of one letter. */
  lemma FoldsAlike(a: char, b: char)
    ensures Fold(a) == Fold(b) <==>
            a == b || ('A' <= a <= 'Z' && b as int == a as int + 32) || ('A' <= b <= 'Z' && a as int == b as int + 32)
  {}

  predicate Wild(c: char) {
    c == '*' || c == '?'
  }

  // ---------------------------------------------------------------- the two languages

  /** The glob language: '?' stands for one character, '*' for any run of characters, the rest for itself. */
  ghost predicate GlobMatches(glob: string, name: string)
    decreases |glob|
  {
    if glob == "" then name == ""
    else if glob[0] == '*' then exists k :: 0 <= k <= |name| && GlobMatches(glob[1..], name[k..])
    else name != "" && (glob[0] == '?' || Fold(glob[0]) == Fold(name[0])) && GlobMatches(glob[1..], name[1..])
  }

  /** '.' matches any character but a newline. */
  predicate NewlineFree(s: string) {
    forall i :: 0 <= i < |s| ==> s[i] != '\n'
  }

  /** The same, but that a wildcard never takes a newline: all a regular expression can say. */
  ghost predicate LineMatches(glob: string, name: string)
    decreases |glob|
  {
    if glob == "" then name == ""
    else if glob[0] == '*' then exists k ::
            0 <= k <= |name| && NewlineFree(name[..k]) && LineMatches(glob[1..], name[k..])
    else name != "" && (if glob[0] == '?' then name[0] != '\n' else Fold(glob[0]) == Fold(name[0])) &&
            LineMatches(glob[1..], name[1..])
  }

  /** For the names servers have it makes no difference. */
  lemma {:induction false} LineIsGlob(glob: string, name: string)
    requires NewlineFree(name)
    ensures LineMatches(glob, name) <==> GlobMatches(glob, name)
    decreases |glob|
  {
    if glob != "" {
      if glob[0] == '*' {
        forall k | 0 <= k <= |name|
          ensures NewlineFree(name[..k]) && (LineMatches(glob[1..], name[k..]) <==> GlobMatches(glob[1..], name[k..]))
        {
          LineIsGlob(glob[1..], name[k..]);
        }
      } else if name != "" {
        LineIsGlob(glob[1..], name[1..]);
      }
    }
  }

  predicate SameFolded(a: string, b: string) {
    |a| == |b| && forall i :: 0 <= i < |a| ==> Fold(a[i]) == Fold(b[i])
  }

  predicate FragmentMatches(f: Fragment, s: string) {
    match f
    case Literal(text) => SameFolded(text, s)
    case Any(n, open) => (if open then n <= |s| else n == |s|) && NewlineFree(s)
  }

  /** The regular expression, matched from \A to \z. */
  predicate RegexMatches(re: seq<Fragment>, name: string)
    decreases |re|
  {
    if re == [] then name == ""
    else exists k :: 0 <= k <= |name| && FragmentMatches(re[0], name[..k]) && RegexMatches(re[1..], name[k..])
  }

  // ---------------------------------------------------------------- the rewriting as a function

  function Questions(run: string): nat {
    if run == "" then 0 else (if run[0] == '?' then 1 else 0) + Questions(run[1..])
  }

  /** The length of the longest prefix whose characters are all wildcards, or all not. */
  function RunLength(s: string, wild: bool): (n: nat)
    ensures n <= |s|
    ensures forall i :: 0 <= i < n ==> Wild(s[i]) == wild
    ensures n < |s| ==> Wild(s[n]) != wild
  {
    if s == "" || Wild(s[0]) != wild then 0 else 1 + RunLength(s[1..], wild)
  }

  function Collapsed(glob: string): seq<Fragment>
    decreases |glob|
  {
    if glob == "" then []
    else if Wild(glob[0]) then
      var n := RunLength(glob, true);
      [Any(Questions(glob[..n]), '*' in glob[..n])] + Collapsed(glob[n..])
    else
      var n := RunLength(glob, false);
      [Literal(glob[..n])] + Collapsed(glob[n..])
  }

  /** regexp.Compile refuses a repeat count above a thousand. */
  predicate Compiles(re: seq<Fragment>) {
    forall f :: f in re ==> f.Any? ==> f.count <= MAX_REPEAT
  }

  // ---------------------------------------------------------------- the rewriting as the source does it

  lemma RunLengthIs(s: string, wild: bool, n: nat)
    requires n <= |s| && (forall i :: 0 <= i < n ==> Wild(s[i]) == wild) && (n < |s| ==> Wild(s[n]) != wild)
    ensures RunLength(s, wild) == n
  {}

  lemma {:induction false} QuestionsAppend(run: string, c: char)
    ensures Questions(run + [c]) == Questions(run) + (if c == '?' then 1 else 0)
  {
    if run == "" {
      assert run + [c] == [c] && [c][1..] == "";
    } else {
      assert (run + [c])[1..] == run[1..] + [c];
      QuestionsAppend(run[1..], c);
    }
  }

  method ScanLiteral(glob: string, start: nat) returns (i: nat)
    requires start <= |glob|
    ensures start <= i <= |glob| && i - start == RunLength(glob[start..], false)
  {
    i := start;
    while i < |glob| && glob[i] != '*' && glob[i] != '?'
      invariant start <= i <= |glob|
      invariant forall k :: start <= k < i ==> !Wild(glob[k])
    {
      i := i + 1;
    }
    RunLengthIs(glob[start..], false, i - start);
  }

  method ScanWildcards(glob: string, start: nat) returns (i: nat, questionMarks: nat, hasStar: bool)
    requires start <= |glob|
    ensures start <= i <= |glob| && i - start == RunLength(glob[start..], true)
    ensures questionMarks == Questions(glob[start..i]) && hasStar == ('*' in glob[start..i])
  {
    i, questionMarks, hasStar := start, 0, false;
    while i < |glob| && (glob[i] == '*' || glob[i] == '?')
      invariant start <= i <= |glob|
      invariant forall k :: start <= k < i ==> Wild(glob[k])
      invariant questionMarks == Questions(glob[start..i]) && hasStar == ('*' in glob[start..i])
    {
      assert glob[start..i + 1] == glob[start..i] + [glob[i]];
      QuestionsAppend(glob[start..i], glob[i]);
      if glob[i] == '?' {
        questionMarks := questionMarks + 1;
      } else {
        hasStar := true;
      }
      i := i + 1;
    }
    RunLengthIs(glob[start..], true, i - start);
  }

  lemma {:induction false} QuestionsMember(run: string)
    ensures '?' in run <==> 0 < Questions(run)
  {
    if run != "" {
      assert run == [run[0]] + run[1..];
      QuestionsMember(run[1..]);
    }
  }

  /** A run of wildcards that holds neither kind is no run. */
  lemma NoWildcards(run: string)
    requires Questions(run) == 0 && '*' !in run && forall c :: c in run ==> Wild(c)
    ensures run == ""
  {
    QuestionsMember(run);
    SomeMember(run);
  }

  lemma CollapsedLiteral(glob: string, start: nat, i: nat)
    requires start < i <= |glob| && i - start == RunLength(glob[start..], false)
    ensures Collapsed(glob[start..]) == [Literal(glob[start..i])] + Collapsed(glob[i..])
  {
    SlicesOf(glob, start, i);
  }

  lemma SlicesOf(s: string, start: nat, i: nat)
    requires start <= i <= |s|
    ensures s[start..][..i - start] == s[start..i] && s[start..][i - start..] == s[i..]
  {}

  lemma CollapsedWildcards(glob: string, start: nat, i: nat)
    requires start < i <= |glob| && i - start == RunLength(glob[start..], true)
    ensures Collapsed(glob[start..]) == [Any(Questions(glob[start..i]), '*' in glob[start..i])] + Collapsed(glob[i..])
  {
    SlicesOf(glob, start, i);
    var s := glob[start..];
    assert Wild(s[0]);
  }

  /** Writes the literal run at a cursor, if there is one. */
  method EmitLiteral(glob: string, start: nat, out: seq<Fragment>) returns (i: nat, out': seq<Fragment>)
    requires start < |glob|
    ensures start <= i <= |glob| && (!Wild(glob[start]) ==> start < i)
    ensures out' + Collapsed(glob[i..]) == out + Collapsed(glob[start..])
  {
    i := ScanLiteral(glob, start);
    out' := out;
    assert glob[start..][0] == glob[start];
    if i > start {
      CollapsedLiteral(glob, start, i);
      Assoc(out, [Literal(glob[start..i])], Collapsed(glob[i..]));
      out' := out + [Literal(glob[start..i])];
    }
  }

  /** Writes the wildcard run at a cursor as one quantifier, if there is one. */
  method EmitWildcards(glob: string, start: nat, out: seq<Fragment>) returns (i: nat, out': seq<Fragment>)
    requires start <= |glob|
    ensures start <= i <= |glob| && (start < |glob| && Wild(glob[start]) ==> start < i)
    ensures out' + Collapsed(glob[i..]) == out + Collapsed(glob[start..])
  {
    var questionMarks, hasStar;
    i, questionMarks, hasStar := ScanWildcards(glob, start);
    out' := out;
    if i > start {
      CollapsedWildcards(glob, start, i);
      Assoc(out, [Any(questionMarks, hasStar)], Collapsed(glob[i..]));
    }
    if hasStar {
      out' := out + [Any(questionMarks, true)];
    } else if questionMarks > 0 {
      out' := out + [Any(questionMarks, false)];
    } else {
      NoWildcards(glob[start..i]);
    }
  }

  /** Alternates runs of literal characters and runs of wildcards until the glob is used up. */
  method GlobToRegex(glob: string) returns (re: Option<seq<Fragment>>)
    ensures re == if Compiles(Collapsed(glob)) then Some(Collapsed(glob)) else None
  {
    var out: seq<Fragment> := [];
    var i := 0;
    assert glob[0..] == glob;
    while i < |glob|
      invariant 0 <= i <= |glob|
      invariant out + Collapsed(glob[i..]) == Collapsed(glob)
    {
      var start := i;
      i, out := EmitLiteral(glob, start, out);
      i, out := EmitWildcards(glob, i, out);
    }
    assert glob[|glob|..] == "" && out == Collapsed(glob);
    re := if Compiles(out) then Some(out) else None;
  }

  // ---------------------------------------------------------------- the language is preserved

  /** After a number of characters, or at least that number, none of them a newline, the rest of the glob matches. */
  ghost predicate AfterAny(count: nat, open: bool, rest: string, name: string) {
    exists k :: 0 <= k <= |name| && (if open then count <= k else count == k) && NewlineFree(name[..k]) &&
        LineMatches(rest, name[k..])
  }

  lemma NewlineFreeJoin(name: string, j: nat, k: nat)
    requires j + k <= |name|
    ensures name[j..][k..] == name[j + k..]
    ensures NewlineFree(name[..j + k]) <==> NewlineFree(name[..j]) && NewlineFree(name[j..][..k])
  {
    assert name[..j + k] == name[..j] + name[j..][..k];
    assert forall i :: 0 <= i < k ==> name[..j + k][j + i] == name[j..][..k][i];
  }

  lemma OneMore(count: nat, open: bool, rest: string, name: string)
    requires name != "" && name[0] != '\n' && AfterAny(count, open, rest, name[1..])
    ensures AfterAny(count + 1, open, rest, name)
  {
    var k :| 0 <= k <= |name[1..]| && (if open then count <= k else count == k) && NewlineFree(name[1..][..k]) &&
        LineMatches(rest, name[1..][k..]);
    NewlineFreeJoin(name, 1, k);
    assert NewlineFree(name[..k + 1]) && LineMatches(rest, name[k + 1..]);
  }

  lemma OneLess(count: nat, open: bool, rest: string, name: string)
    requires name != "" && AfterAny(count + 1, open, rest, name)
    ensures name[0] != '\n' && AfterAny(count, open, rest, name[1..])
  {
    var k :| 0 <= k <= |name| && (if open then count + 1 <= k else count + 1 == k) && NewlineFree(name[..k]) &&
        LineMatches(rest, name[k..]);
    assert name[..k][0] == name[0];
    NewlineFreeJoin(name, 1, k - 1);
    assert NewlineFree(name[1..][..k - 1]) && LineMatches(rest, name[1..][k - 1..]);
  }

  lemma AfterOne(count: nat, open: bool, rest: string, name: string)
    requires name != ""
    ensures name[0] != '\n' && AfterAny(count, open, rest, name[1..]) <==> AfterAny(count + 1, open, rest, name)
  {
    if name[0] != '\n' && AfterAny(count, open, rest, name[1..]) {
      OneMore(count, open, rest, name);
    }
    if AfterAny(count + 1, open, rest, name) {
      OneLess(count, open, rest, name);
    }
  }

  lemma SomeMore(count: nat, open: bool, rest: string, name: string, j: nat)
    requires j <= |name| && NewlineFree(name[..j]) && AfterAny(count, open, rest, name[j..])
    ensures AfterAny(count, true, rest, name)
  {
    var k :| 0 <= k <= |name[j..]| && (if open then count <= k else count == k) && NewlineFree(name[j..][..k]) &&
        LineMatches(rest, name[j..][k..]);
    NewlineFreeJoin(name, j, k);
    assert NewlineFree(name[..j + k]) && LineMatches(rest, name[j + k..]);
  }

  lemma SomeLess(count: nat, open: bool, rest: string, name: string) returns (j: nat)
    requires AfterAny(count, true, rest, name)
    ensures j <= |name| && NewlineFree(name[..j]) && AfterAny(count, open, rest, name[j..])
  {
    var k :| 0 <= k <= |name| && count <= k && NewlineFree(name[..k]) && LineMatches(rest, name[k..]);
    j := k - count;
    NewlineFreeJoin(name, j, count);
    assert NewlineFree(name[j..][..count]) && LineMatches(rest, name[j..][count..]);
  }

  lemma AfterSome(count: nat, open: bool, rest: string, name: string)
    ensures (exists j :: 0 <= j <= |name| && NewlineFree(name[..j]) && AfterAny(count, open, rest, name[j..])) <==>
            AfterAny(count, true, rest, name)
  {
    if j :| 0 <= j <= |name| && NewlineFree(name[..j]) && AfterAny(count, open, rest, name[j..]) {
      SomeMore(count, open, rest, name, j);
    }
    if AfterAny(count, true, rest, name) {
      var j := SomeLess(count, open, rest, name);
    }
  }

  /** A run of wildcards means its question marks, at least or exactly. */
  lemma {:induction false} RunMeans(run: string, rest: string, name: string)
    requires forall i :: 0 <= i < |run| ==> Wild(run[i])
    ensures LineMatches(run + rest, name) <==> AfterAny(Questions(run), '*' in run, rest, name)
    decreases |run|
  {
    if run == "" {
      assert run + rest == rest && name[0..] == name;
    } else {
      var tail := run[1..];
      assert run == [run[0]] + tail && (run + rest)[1..] == tail + rest;
      if run[0] == '?' {
        if name != "" {
          RunMeans(tail, rest, name[1..]);
          AfterOne(Questions(tail), '*' in tail, rest, name);
        }
      } else {
        forall j | 0 <= j <= |name|
          ensures LineMatches(tail + rest, name[j..]) <==> AfterAny(Questions(tail), '*' in tail, rest, name[j..])
        {
          RunMeans(tail, rest, name[j..]);
        }
        AfterSome(Questions(tail), '*' in tail, rest, name);
      }
    }
  }

  lemma {:induction false} LiteralMeans(text: string, rest: string, name: string)
    requires forall i :: 0 <= i < |text| ==> !Wild(text[i])
    ensures LineMatches(text + rest, name) <==>
            |text| <= |name| && SameFolded(text, name[..|text|]) && LineMatches(rest, name[|text|..])
    decreases |text|
  {
    if text == "" {
      assert text + rest == rest && name[0..] == name;
    } else {
      assert text == [text[0]] + text[1..] && (text + rest)[1..] == text[1..] + rest;
      if name != "" {
        LiteralMeans(text[1..], rest, name[1..]);
        if |text| <= |name| {
          assert name[1..][|text| - 1..] == name[|text|..];
          assert name[1..][..|text| - 1] == name[..|text|][1..];
          FoldedTail(text, name[..|text|]);
        }
      }
    }
  }

  lemma FoldedTail(a: string, b: string)
    requires |a| == |b| && a != ""
    ensures SameFolded(a, b) <==> Fold(a[0]) == Fold(b[0]) && SameFolded(a[1..], b[1..])
  {
    if Fold(a[0]) == Fold(b[0]) && SameFolded(a[1..], b[1..]) {
      forall i | 0 <= i < |a| ensures Fold(a[i]) == Fold(b[i]) {
        if i > 0 {
          assert a[i] == a[1..][i - 1] && b[i] == b[1..][i - 1];
        }
      }
    }
  }

  /** The collapsed pattern matches exactly what the glob matches when its wildcards take no newline; for every name. */
  lemma {:induction false} CollapsePreserves(glob: string, name: string)
    ensures RegexMatches(Collapsed(glob), name) <==> LineMatches(glob, name)
    decreases |glob|
  {
    if glob != "" {
      var wild := Wild(glob[0]);
      var n := RunLength(glob, wild);
      var run, rest := glob[..n], glob[n..];
      assert glob == run + rest;
      var re := Collapsed(glob);
      assert re[1..] == Collapsed(rest);
      forall k | 0 <= k <= |name| ensures RegexMatches(re[1..], name[k..]) <==> LineMatches(rest, name[k..]) {
        CollapsePreserves(rest, name[k..]);
      }
      if wild {
        RunMeans(run, rest, name);
        assert forall k :: 0 <= k <= |name| ==>
          (FragmentMatches(re[0], name[..k]) <==>
              (if '*' in run then Questions(run) <= k else Questions(run) == k) && NewlineFree(name[..k]));
      } else {
        LiteralMeans(run, rest, name);
        assert forall k :: 0 <= k <= |name| && FragmentMatches(re[0], name[..k]) ==> k == n;
      }
    }
  }

  /** Pattern and glob agree on a name, whatever the glob, exactly if the name has no newline in it. */
  lemma NewlineIsTheException(name: string)
    ensures (forall glob: string :: RegexMatches(Collapsed(glob), name) <==> GlobMatches(glob, name)) <==>
            NewlineFree(name)
  {
    if NewlineFree(name) {
      forall glob: string ensures RegexMatches(Collapsed(glob), name) <==> GlobMatches(glob, name) {
        CollapsePreserves(glob, name);
        LineIsGlob(glob, name);
      }
    } else {
      assert "*"[1..] == "" && name[|name|..] == "";
      assert GlobMatches("*", name);
      assert !LineMatches("*", name) by {
        forall k | 0 <= k <= |name| && LineMatches("", name[k..]) ensures name[..k] == name {}
      }
      CollapsePreserves("*", name);
    }
  }

  // ---------------------------------------------------------------- which globs compile

  ghost predicate WildRun(s: string) {
    forall c :: c in s ==> Wild(c)
  }

  ghost predicate ShortStretch(glob: string, i: int, j: int)
    requires 0 <= i <= j <= |glob|
  {
    WildRun(glob[i..j]) ==> Questions(glob[i..j]) <= 1000
  }

  /** No stretch of wildcards holds more than a thousand question marks. */
  ghost predicate ShortRuns(glob: string) {
    forall i, j {:trigger ShortStretch(glob, i, j)} :: 0 <= i <= j <= |glob| ==> ShortStretch(glob, i, j)
  }

  lemma {:induction false} QuestionsSplit(a: string, b: string)
    ensures Questions(a + b) == Questions(a) + Questions(b)
  {
    if a == "" {
      assert a + b == b;
    } else {
      assert (a + b)[1..] == a[1..] + b;
      QuestionsSplit(a[1..], b);
    }
  }

  lemma QuestionsMiddle(a: string, b: string, c: string)
    ensures Questions(b) <= Questions(a + (b + c))
  {
    QuestionsSplit(b, c);
    QuestionsSplit(a, b + c);
  }

  lemma QuestionsWithin(s: string, i: nat, j: nat)
    requires i <= j <= |s|
    ensures Questions(s[i..j]) <= Questions(s)
  {
    assert s == s[..i] + (s[i..j] + s[j..]);
    QuestionsMiddle(s[..i], s[i..j], s[j..]);
  }

  lemma ShortRunsTail(glob: string, n: nat)
    requires 0 < n <= |glob| && n == RunLength(glob, Wild(glob[0])) && ShortRuns(glob)
    ensures ShortRuns(glob[n..]) && (Wild(glob[0]) ==> Questions(glob[..n]) <= MAX_REPEAT)
  {
    assert ShortStretch(glob, 0, n) && glob[0..n] == glob[..n];
    forall i, j | 0 <= i <= j <= |glob[n..]| ensures ShortStretch(glob[n..], i, j) {
      ShortUnshift(glob, n, i, j);
    }
  }

  lemma ShortUnshift(glob: string, n: nat, i: nat, j: nat)
    requires n <= |glob| && i <= j <= |glob| - n && ShortRuns(glob)
    ensures ShortStretch(glob[n..], i, j)
  {
    assert ShortStretch(glob, i + n, j + n);
    assert glob[n..][i..j] == glob[i + n..j + n];
  }

  /** A stretch that starts outside the wildcards is none, unless it is empty. */
  lemma NotWildAt(glob: string, i: nat, j: nat, k: nat)
    requires i <= k < j <= |glob| && !Wild(glob[k])
    ensures ShortStretch(glob, i, j)
  {
    assert glob[i..j][k - i] == glob[k];
    assert glob[k] in glob[i..j];
  }

  lemma ShortWithin(glob: string, n: nat, i: nat, j: nat)
    requires i <= j <= n <= |glob| && Questions(glob[..n]) <= MAX_REPEAT
    ensures ShortStretch(glob, i, j)
  {
    assert glob[i..j] == glob[..n][i..j];
    QuestionsWithin(glob[..n], i, j);
  }

  lemma ShortShift(glob: string, n: nat, i: nat, j: nat)
    requires n <= i <= j <= |glob| && ShortRuns(glob[n..])
    ensures ShortStretch(glob, i, j)
  {
    assert ShortStretch(glob[n..], i - n, j - n);
    assert glob[i..j] == glob[n..][i - n..j - n];
  }

  lemma ShortRunsWhole(glob: string, n: nat)
    requires 0 < n <= |glob| && n == RunLength(glob, Wild(glob[0]))
    requires ShortRuns(glob[n..]) && (Wild(glob[0]) ==> Questions(glob[..n]) <= MAX_REPEAT)
    ensures ShortRuns(glob)
  {
    forall i, j | 0 <= i <= j <= |glob| ensures ShortStretch(glob, i, j) {
      if n <= i {
        ShortShift(glob, n, i, j);
      } else if i == j {
        assert glob[i..j] == "";
      } else if !Wild(glob[0]) {
        NotWildAt(glob, i, j, i);
      } else if n < j {
        NotWildAt(glob, i, j, n);
      } else {
        ShortWithin(glob, n, i, j);
      }
    }
  }

  lemma {:induction false} CompilesIffShort(glob: string)
    ensures Compiles(Collapsed(glob)) <==> ShortRuns(glob)
    decreases |glob|
  {
    if glob != "" {
      var n := RunLength(glob, Wild(glob[0]));
      if ShortRuns(glob) {
        ShortRunsTail(glob, n);
      }
      if ShortRuns(glob[n..]) && (Wild(glob[0]) ==> Questions(glob[..n]) <= MAX_REPEAT) {
        ShortRunsWhole(glob, n);
      }
      CompilesIffShort(glob[n..]);
      var re := Collapsed(glob);
      assert re == [re[0]] + Collapsed(glob[n..]);
      assert Compiles(re) <==> Compiles(Collapsed(glob[n..])) && (re[0].Any? ==> re[0].count <= MAX_REPEAT);
    }
  }

  // ---------------------------------------------------------------- the access control

  datatype Json = Absent | Null | Bool(b: bool) | Text(s: string) | List(items: seq<Json>) | Other

  /** The three fields of an m.room.server_acl event's content, of whatever type the room put there. */
  datatype AclContent = AclContent(allowIpLiterals: Json, allow: Json, deny: Json)

  datatype ServerAcl = ServerAcl(allowIpLiterals: bool, allow: seq<seq<Fragment>>, deny: seq<seq<Fragment>>)

  /** The patterns of a list that can be compiled; other entries, and other values than lists, count for nothing. */
  function CompiledList(raw: Json): seq<seq<Fragment>> {
    if raw.List? then CompiledItems(raw.items) else []
  }

  function CompiledItems(items: seq<Json>): seq<seq<Fragment>> {
    if items == [] then []
    else
      var before, last := CompiledItems(items[..|items| - 1]), items[|items| - 1];
      if last.Text? && Compiles(Collapsed(last.s)) then before + [Collapsed(last.s)] else before
  }

  method CompileGlobs(raw: Json) returns (out: seq<seq<Fragment>>)
    ensures out == CompiledList(raw)
  {
    out := [];
    if !raw.List? {
      return;
    }
    var items := raw.items;
    for i := 0 to |items|
      invariant out == CompiledItems(items[..i])
    {
      assert items[..i + 1][..i] == items[..i];
      match items[i] {
        case Text(s) =>
          var re := GlobToRegex(s);
          if re.Some? {
            out := out + [re.value];
          }
        case _ =>
      }
    }
    assert items[..|items|] == items;
  }

  /**
   * A null is read as false, because decoding it into a bool neither fails nor sets it; any other non-bool is ignored.
   */
  method ParseServerAcl(content: AclContent) returns (acl: ServerAcl)
    ensures acl.allowIpLiterals == (content.allowIpLiterals != Null && content.allowIpLiterals != Bool(false))
    ensures acl.allow == CompiledList(content.allow) && acl.deny == CompiledList(content.deny)
  {
    var allowIp := true;
    match content.allowIpLiterals {
      case Bool(b) => allowIp := b;
      case Null => allowIp := false;
      case _ =>
    }
    var allow := CompileGlobs(content.allow);
    var deny := CompileGlobs(content.deny);
    acl := ServerAcl(allowIp, allow, deny);
  }

  /** Some entry of the list is a glob that compiles and matches the name. */
  ghost predicate Names(raw: Json, name: string) {
    raw.List? && exists i ::
        0 <= i < |raw.items| && raw.items[i].Text? && ShortRuns(raw.items[i].s) && LineMatches(raw.items[i].s, name)
  }

  /** For a name without a newline these are the globs of the specification. */
  lemma NamesByGlobs(raw: Json, name: string)
    requires NewlineFree(name)
    ensures Names(raw, name) <==>
            raw.List? && exists i ::
                0 <= i < |raw.items| && raw.items[i].Text? && ShortRuns(raw.items[i].s) &&
                GlobMatches(raw.items[i].s, name)
  {
    if raw.List? {
      forall i | 0 <= i < |raw.items| && raw.items[i].Text?
        ensures LineMatches(raw.items[i].s, name) <==> GlobMatches(raw.items[i].s, name)
      {
        LineIsGlob(raw.items[i].s, name);
      }
    }
  }

  /** What a room's ACL content means for a server name. */
  ghost predicate Permits(content: AclContent, name: string, parsesAsIpv4: string -> bool) {
    && (content.allowIpLiterals == Null || content.allowIpLiterals == Bool(false) ==>
        !("[" <= name) && !parsesAsIpv4(name))
    && !Names(content.deny, name)
    && Names(content.allow, name)
  }

  ghost predicate AnyMatches(patterns: seq<seq<Fragment>>, name: string) {
    exists i :: 0 <= i < |patterns| && RegexMatches(patterns[i], name)
  }

  lemma AnyAppend(patterns: seq<seq<Fragment>>, re: seq<Fragment>, name: string)
    ensures AnyMatches(patterns + [re], name) <==> AnyMatches(patterns, name) || RegexMatches(re, name)
  {
    var all := patterns + [re];
    assert all[|patterns|] == re;
    if AnyMatches(patterns, name) {
      var i :| 0 <= i < |patterns| && RegexMatches(patterns[i], name);
      assert all[i] == patterns[i];
    }
  }

  lemma {:induction false} ItemsMatch(items: seq<Json>, name: string)
    ensures AnyMatches(CompiledItems(items), name) <==> Names(List(items), name)
  {
    if items == [] {
      assert List(items).items == [];
    } else {
      var front, last := items[..|items| - 1], items[|items| - 1];
      ItemsMatch(front, name);
      NamesAppend(front, last, name);
      assert items == front + [last];
      if last.Text? {
        CompilesIffShort(last.s);
        CollapsePreserves(last.s, name);
        AnyAppend(CompiledItems(front), Collapsed(last.s), name);
      }
    }
  }

  lemma NamesAppend(front: seq<Json>, last: Json, name: string)
    ensures Names(List(front + [last]), name) <==>
            Names(List(front), name) || (last.Text? && ShortRuns(last.s) && LineMatches(last.s, name))
  {
    var all := front + [last];
    assert List(all).items == all && all[|front|] == last;
    if Names(List(front), name) {
      var i :| 0 <= i < |front| && front[i].Text? && ShortRuns(front[i].s) && LineMatches(front[i].s, name);
      assert all[i] == front[i];
    }
  }

  method MatchesAny(patterns: seq<seq<Fragment>>, name: string) returns (found: bool)
    ensures found <==> AnyMatches(patterns, name)
  {
    for i := 0 to |patterns|
      invariant forall k :: 0 <= k < i ==> !RegexMatches(patterns[k], name)
    {
      if RegexMatches(patterns[i], name) {
        return true;
      }
    }
    return false;
  }

  /** Deny before allow, and what is not allowed is rejected. */
  method Allowed(acl: ServerAcl, name: string, parsesAsIpv4: string -> bool) returns (allowed: bool)
    ensures allowed <==>
            && (acl.allowIpLiterals || (!("[" <= name) && !parsesAsIpv4(name)))
            && !AnyMatches(acl.deny, name)
            && AnyMatches(acl.allow, name)
  {
    if !acl.allowIpLiterals {
      if "[" <= name {
        return false;
      }
      if parsesAsIpv4(name) {
        return false;
      }
    }
    var denied := MatchesAny(acl.deny, name);
    if denied {
      return false;
    }
    allowed := MatchesAny(acl.allow, name);
  }

  /** A room without an ACL event restricts nobody; otherwise the parsed ACL decides what the content says. */
  method CheckServer(content: Option<AclContent>, name: string, parsesAsIpv4: string -> bool) returns (allowed: bool)
    ensures allowed <==> content.None? || Permits(content.value, name, parsesAsIpv4)
  {
    match content {
      case None => return true;
      case Some(c) =>
        var acl := ParseServerAcl(c);
        if c.allow.List? {
          assert c.allow == List(c.allow.items);
          ItemsMatch(c.allow.items, name);
        }
        if c.deny.List? {
          assert c.deny == List(c.deny.items);
          ItemsMatch(c.deny.items, name);
        }
        allowed := Allowed(acl, name, parsesAsIpv4);
    }
  }
}
