/**
 * The C source scanning of PyInline's `c_util`: `trimWhite`, the comment
 * and directive stripping of `preProcess`, and the signature search of
 * `findFunctionDefs`. Each regular expression is written out as the scan
 * Python's `re` performs for it: at each position the alternatives are
 * tried in order; a position where none matches is passed over.
 *
 * Character classes are those of Python 2's `re` on byte strings: `\s` is
 * space, tab, newline, carriage return, form feed and vertical tab; `\w`
 * is an ASCII letter, digit or underscore; `.` is anything but a newline.
 */
module CScan {
  import opened PyValues

  predicate IsWordChar(c: char) {
    'a' <= c <= 'z' || 'A' <= c <= 'Z' || '0' <= c <= '9' || c == '_'
  }

  /** The character classes the patterns use. */
  datatype CharClass =
    | Space          // `\s`
    | Word           // `\w`
    | Token          // `[\w*]`
    | Star           // `\*`
    | NotNewline     // `.`
    | NotCloseParen  // `[^\)]`

  predicate In(c: char, k: CharClass) {
    match k
    case Space => IsSpace(c)
    case Word => IsWordChar(c)
    case Token => IsWordChar(c) || c == '*'
    case Star => c == '*'
    case NotNewline => c != '\n'
    case NotCloseParen => c != ')'
  }

  /** Where the longest run of characters in `k` starting at `i` ends:
      how far a greedy `[...]*` takes the scan. */
  function Skip(s: string, i: nat, k: CharClass): (j: nat)
    requires i <= |s|
    ensures i <= j <= |s|
    ensures forall m :: i <= m < j ==> In(s[m], k)
    ensures j < |s| ==> !In(s[j], k)
    decreases |s| - i
  {
    if i == |s| || !In(s[i], k) then i else Skip(s, i + 1, k)
  }

  /** A run that stops at `j` is the run `Skip` finds. */
  lemma {:induction false} SkipTo(s: string, i: nat, j: nat, k: CharClass)
    requires i <= j <= |s|
    requires forall m :: i <= m < j ==> In(s[m], k)
    requires j < |s| ==> !In(s[j], k)
    ensures Skip(s, i, k) == j
    decreases j - i
  {
    if i < j {
      SkipTo(s, i + 1, j, k);
    }
  }

  /** Where the longest run of characters in `k` ending at `j` starts,
      looking no further back than `lo`. */
  function SkipBack(s: string, lo: nat, j: nat, k: CharClass): (i: nat)
    requires lo <= j <= |s|
    ensures lo <= i <= j
    ensures forall m :: i <= m < j ==> In(s[m], k)
    ensures lo < i ==> !In(s[i - 1], k)
  {
    if j == lo || !In(s[j - 1], k) then j else SkipBack(s, lo, j - 1, k)
  }

  // ---------------------------------------------------------------------
  // trimWhite

  /** `trimWhite(str)`: `^\s*` replaced by nothing, and then `\s*$` in
      what is left. */
  function TrimWhite(s: string): (r: string)
    ensures |r| <= |s|
  {
    var i := Skip(s, 0, Space);
    s[i..SkipBack(s, i, |s|, Space)]
  }

  /** `r` sits in `s` at `i`, and everything of `s` before and after it is
      whitespace. */
  predicate CutFrom(s: string, r: string, i: nat) {
    && i + |r| <= |s|
    && s[i..i + |r|] == r
    && (forall k :: 0 <= k < i ==> IsSpace(s[k]))
    && (forall k :: i + |r| <= k < |s| ==> IsSpace(s[k]))
  }

  /** `trimWhite` removes the whitespace before the first other character
      and after the last one, and nothing else: the result is a contiguous
      part of the input, everything cut off is whitespace, and the result
      neither starts nor ends with whitespace. */
  lemma TrimWhiteStrips(s: string)
    ensures exists i :: CutFrom(s, TrimWhite(s), i)
    ensures var r := TrimWhite(s);
      r == [] || (!IsSpace(r[0]) && !IsSpace(r[|r| - 1]))
  {
    var i := Skip(s, 0, Space);
    var r := TrimWhite(s);
    assert CutFrom(s, r, i);
  }

  /** Trimming twice is trimming once. */
  lemma TrimWhiteIdempotent(s: string)
    ensures TrimWhite(TrimWhite(s)) == TrimWhite(s)
  {
    var r := TrimWhite(s);
    TrimWhiteStrips(s);
    if r != [] {
      assert Skip(r, 0, Space) == 0;
      assert SkipBack(r, 0, |r|, Space) == |r|;
      assert r[0..|r|] == r;
    }
  }

  // ---------------------------------------------------------------------
  // Literals and comments

  /** The rest of a quoted literal after its opening quote `q`, up to and
      including the closing quote: `(?:\\.|[^q\\])*q`. A backslash takes
      the next character with it unless that is a newline; None when the
      literal is not closed. */
  function QuotedRest(t: string, q: char): (r: Option<nat>)
    ensures r.Some? ==> 1 <= r.value <= |t| && t[r.value - 1] == q
    decreases |t|
  {
    if t == [] then None
    else if t[0] == q then Some(1)
    else if t[0] == '\\' then
      if |t| >= 2 && t[1] != '\n' then
        match QuotedRest(t[2..], q)
        case Some(n) => Some(n + 2)
        case None => None
      else None
    else
      match QuotedRest(t[1..], q)
      case Some(n) => Some(n + 1)
      case None => None
  }

  /** The length of the quoted literal `s` starts with, if it does. */
  function LiteralAt(s: string): (r: Option<nat>)
    ensures r.Some? ==> 2 <= r.value <= |s| && (s[0] == '"' || s[0] == '\'') && s[r.value - 1] == s[0]
  {
    if s != [] && (s[0] == '"' || s[0] == '\'') then
      match QuotedRest(s[1..], s[0])
      case Some(n) => Some(n + 1)
      case None => None
    else None
  }

  // The first star-slash pair at index 2 or later, if any: where the
  // block comment pattern ends when `s` starts with slash-star. That
  // pattern takes no star-slash pair before the one that closes it.
  function CloseAt(s: string, k: nat): (r: Option<nat>)
    requires 2 <= k
    ensures r.Some? ==> k <= r.value && r.value + 2 <= |s| && s[r.value] == '*' && s[r.value + 1] == '/'
    ensures r.Some? ==> forall j :: k <= j < r.value ==> !(s[j] == '*' && s[j + 1] == '/')
    ensures r.None? ==> forall j :: k <= j && j + 1 < |s| ==> !(s[j] == '*' && s[j + 1] == '/')
    decreases |s| - k
  {
    if k + 2 > |s| then None
    else if s[k] == '*' && s[k + 1] == '/' then Some(k)
    else CloseAt(s, k + 1)
  }

  /** What `c_comment` matches at the start of `s`. */
  datatype Lexeme = Keep(n: nat) | Drop(n: nat) | Plain

  /** `c_comment` at the start of `s`: a string or character literal is
      kept; `//` to the end of the line, a block comment, and a run of
      whitespace followed by `#` and the rest of the line are dropped;
      anything else is no match. */
  function HeadMatch(s: string): (r: Lexeme)
    ensures r.Keep? ==> LiteralAt(s) == Some(r.n)
    ensures r.Keep? || r.Drop? ==> 1 <= r.n <= |s|
  {
    if LiteralAt(s).Some? then Keep(LiteralAt(s).value)
    else if |s| >= 2 && s[0] == '/' && s[1] == '/' then Drop(Skip(s, 2, NotNewline))
    else if |s| >= 2 && s[0] == '/' && s[1] == '*' && CloseAt(s, 2).Some? then Drop(CloseAt(s, 2).value + 2)
    else
      var w := Skip(s, 0, Space);
      if w < |s| && s[w] == '#' then Drop(Skip(s, w + 1, NotNewline))
      else Plain
  }

  /** `preProcess(code)`: `c_comment.sub(...)` replacing each literal by
      itself and everything else it matches by nothing. */
  function PreProcess(s: string): (r: string)
    ensures |r| <= |s|
    decreases |s|
  {
    if s == [] then []
    else match HeadMatch(s)
      case Keep(n) => s[..n] + PreProcess(s[n..])
      case Drop(n) => PreProcess(s[n..])
      case Plain => [s[0]] + PreProcess(s[1..])
  }

  /** Text without quotes, slashes or `#` comes through unchanged. */
  lemma {:induction false} PreProcessPlain(s: string)
    requires forall i :: 0 <= i < |s| ==> s[i] !in "\"'/#"
    ensures PreProcess(s) == s
    decreases |s|
  {
    if s != [] {
      var w := Skip(s, 0, Space);
      assert w < |s| ==> s[w] != '#';
      assert HeadMatch(s) == Plain;
      PreProcessPlain(s[1..]);
    }
  }

  /** A closed literal is kept as it is, escapes and all, and the scan
      goes on after it. */
  lemma PreProcessKeepsLiteral(lit: string, rest: string)
    requires LiteralAt(lit) == Some(|lit|)
    ensures PreProcess(lit + rest) == lit + PreProcess(rest)
  {
    var s := lit + rest;
    LiteralPrefix(lit, rest);
    assert s[..|lit|] == lit && s[|lit|..] == rest;
  }

  /** A literal that is closed stays closed, with the same length, when
      more text follows. */
  lemma LiteralPrefix(lit: string, rest: string)
    requires LiteralAt(lit).Some?
    ensures LiteralAt(lit + rest) == LiteralAt(lit)
  {
    QuotedPrefix(lit[1..], rest, lit[0]);
    assert (lit + rest)[1..] == lit[1..] + rest;
  }

  lemma {:induction false} QuotedPrefix(t: string, rest: string, q: char)
    requires QuotedRest(t, q).Some?
    ensures QuotedRest(t + rest, q) == QuotedRest(t, q)
    decreases |t|
  {
    var u := t + rest;
    if t[0] != q {
      if t[0] == '\\' {
        assert u[2..] == t[2..] + rest;
        QuotedPrefix(t[2..], rest, q);
      } else {
        assert u[1..] == t[1..] + rest;
        QuotedPrefix(t[1..], rest, q);
      }
    }
  }

  /** A `//` comment is dropped up to the end of its line; the newline
      stays. */
  lemma PreProcessDropsLineComment(c: string, rest: string)
    requires '\n' !in c && (rest == [] || rest[0] == '\n')
    ensures PreProcess("//" + c + rest) == PreProcess(rest)
  {
    var s := "//" + c + rest;
    forall m | 2 <= m < 2 + |c|
      ensures In(s[m], NotNewline)
    {
      assert s[m] == c[m - 2];
    }
    SkipTo(s, 2, 2 + |c|, NotNewline);
    assert s[2 + |c|..] == rest;
  }

  // A block comment is dropped up to its first star-slash pair.
  lemma PreProcessDropsBlockComment(c: string, rest: string)
    requires forall j :: 0 <= j < |c| - 1 ==> !(c[j] == '*' && c[j + 1] == '/')
    ensures PreProcess("/*" + c + "*/" + rest) == PreProcess(rest)
  {
    var s := "/*" + c + "*/" + rest;
    assert s[2 + |c|] == '*' && s[3 + |c|] == '/';
    forall j | 2 <= j < 2 + |c|
      ensures !(s[j] == '*' && s[j + 1] == '/')
    {
      if j + 1 < 2 + |c| {
        assert s[j] == c[j - 2] && s[j + 1] == c[j - 1];
      } else {
        assert s[j + 1] == '*';
      }
    }
    assert CloseAt(s, 2) == Some(2 + |c|);
    assert s[4 + |c|..] == rest;
  }

  /** A preprocessor line is dropped together with the whitespace before
      it, newlines included; the newline ending it stays. */
  lemma PreProcessDropsDirective(ws: string, d: string, rest: string)
    requires forall i :: 0 <= i < |ws| ==> IsSpace(ws[i])
    requires '\n' !in d && (rest == [] || rest[0] == '\n')
    ensures PreProcess(ws + "#" + d + rest) == PreProcess(rest)
  {
    var s := ws + "#" + d + rest;
    var e := |ws| + 1 + |d|;
    forall m | 0 <= m < |ws|
      ensures In(s[m], Space)
    {
      assert s[m] == ws[m];
    }
    forall m | |ws| + 1 <= m < e
      ensures In(s[m], NotNewline)
    {
      assert s[m] == d[m - |ws| - 1];
    }
    assert e < |s| ==> s[e] == rest[0];
    HeadMatchDirective(s, |ws|, e);
    assert s[e..] == rest;
  }

  /** The directive alternative: a whitespace run, `#`, and the rest of the
      line up to `e`. */
  lemma HeadMatchDirective(s: string, w: nat, e: nat)
    requires w < e <= |s| && s[w] == '#'
    requires forall m :: 0 <= m < w ==> In(s[m], Space)
    requires forall m :: w + 1 <= m < e ==> In(s[m], NotNewline)
    requires e < |s| ==> s[e] == '\n'
    ensures HeadMatch(s) == Drop(e)
  {
    SkipTo(s, 0, w, Space);
    SkipTo(s, w + 1, e, NotNewline);
    assert LiteralAt(s).None? by {
      assert s[0] == '#' || IsSpace(s[0]);
    }
  }

  // ---------------------------------------------------------------------
  // findFunctionDefs

  /** The positions reached after each iteration of
      `(?:[\w*]+\s+)+`, starting at `q`, as many as greedy matching takes. */
  function Iterations(s: string, q: nat): (qs: seq<nat>)
    requires q <= |s|
    ensures forall i :: 0 <= i < |qs| ==> q < qs[i] <= |s|
    ensures forall i, j :: 0 <= i < j < |qs| ==> qs[i] < qs[j]
    decreases |s| - q
  {
    var t := Skip(s, q, Token);
    if t == q then []
    else
      var w := Skip(s, t, Space);
      if w == t then [] else [w] + Iterations(s, w)
  }

  /** What follows the return type in `_c_function + "\s*(?:\{|;)"`:
      `\**(\w+)\s*\(([^\)]*)\)\s*` and `{` or `;`, matched at `q`. On a match:
      where it ends, where the stars end, the name's bounds and the
      parameters' bounds. */
  datatype Tail = Tail(end: nat, starsEnd: nat, nameStart: nat, nameEnd: nat, paramsStart: nat, paramsEnd: nat)

  function TailAt(s: string, q: nat): (r: Option<Tail>)
    requires q <= |s|
    ensures r.Some? ==> q <= r.value.starsEnd == r.value.nameStart < r.value.nameEnd
                        < r.value.paramsStart <= r.value.paramsEnd < r.value.end <= |s|
    ensures r.Some? ==> forall m :: r.value.nameStart <= m < r.value.nameEnd ==> IsWordChar(s[m])
    ensures r.Some? ==> forall m :: r.value.paramsStart <= m < r.value.paramsEnd ==> s[m] != ')'
    ensures r.Some? ==> s[r.value.end - 1] == '{' || s[r.value.end - 1] == ';'
  {
    var stars := Skip(s, q, Star);
    var nameEnd := Skip(s, stars, Word);
    if nameEnd == stars then None
    else
      var open := Skip(s, nameEnd, Space);
      if open == |s| || s[open] != '(' then None
      else
        var close := Skip(s, open + 1, NotCloseParen);
        if close == |s| then None
        else
          var brace := Skip(s, close + 1, Space);
          if brace == |s| || (s[brace] != '{' && s[brace] != ';') then None
          else Some(Tail(brace + 1, stars, stars, nameEnd, open + 1, close))
  }

  /** A match of the function alternative at the start of `s`: its length
      and its three groups (return type, name, parameters). */
  datatype FunctionMatch = FunctionMatch(len: nat, returnType: string, name: string, params: string)

  /** Greedy matching with backtracking over the number of iterations:
      the tail is tried after the most iterations first, then after one
      fewer, down to one. */
  function Backtrack(s: string, qs: seq<nat>): (r: Option<FunctionMatch>)
    requires forall i :: 0 <= i < |qs| ==> 0 < qs[i] <= |s|
    ensures r.Some? ==> Signature(s, r.value)
    decreases |qs|
  {
    if qs == [] then None
    else
      var q := qs[|qs| - 1];
      match TailAt(s, q)
      case Some(t) =>
        Some(FunctionMatch(t.end, s[..t.starsEnd], s[t.nameStart..t.nameEnd], s[t.paramsStart..t.paramsEnd]))
      case None => Backtrack(s, qs[..|qs| - 1])
  }

  /** What every match of the function alternative looks like: it ends
      with `{` or `;`; the return type is a non-empty start of the match;
      the name is a non-empty run of word characters; the parameters hold
      no `)`. */
  predicate Signature(s: string, m: FunctionMatch) {
    && 1 <= m.len <= |s|
    && (s[m.len - 1] == '{' || s[m.len - 1] == ';')
    && 0 < |m.returnType| < m.len && m.returnType == s[..|m.returnType|]
    && |m.name| > 0 && (forall i :: 0 <= i < |m.name| ==> IsWordChar(m.name[i]))
    && (forall i :: 0 <= i < |m.params| ==> m.params[i] != ')')
  }

  /** `_c_function + "\s*(?:\{|;)"` at the start of `s`. */
  function FunctionAt(s: string): (r: Option<FunctionMatch>)
    ensures r.Some? ==> Signature(s, r.value)
  {
    Backtrack(s, Iterations(s, 0))
  }

  /** A match of `c_function_def`: a literal (all groups empty) or a
      function. */
  datatype Hit = LiteralHit | FunctionHit(m: FunctionMatch)

  /** One step of a scan: how far it moves and what it matches there, if
      anything. */
  datatype Step = Step(len: nat, hit: Option<Hit>)

  /** What `c_function_def` does at the start of `t`: the literal
      alternatives first, then the function; with no match the scan moves
      on by one character. */
  function ScanStep(t: string): (r: Step)
    ensures t != [] ==> 1 <= r.len <= |t|
  {
    match LiteralAt(t)
    case Some(n) => Step(n, Some(LiteralHit))
    case None =>
      match FunctionAt(t)
      case Some(m) => Step(m.len, Some(FunctionHit(m)))
      case None => Step(1, None)
  }

  /** A function hit is a match of the function pattern at a position that
      does not start a literal; a literal hit is a closed literal. */
  lemma ScanStepHits(t: string)
    ensures ScanStep(t).hit == Some(LiteralHit) <==> LiteralAt(t).Some?
    ensures forall m :: ScanStep(t).hit == Some(FunctionHit(m)) <==>
              LiteralAt(t).None? && FunctionAt(t) == Some(m)
  {
  }

  /** A match found at `offset`. */
  datatype Found = Found(offset: nat, hit: Hit)

  /** `findall` from position `p` on, with `step` deciding what matches at
      each position. A step that does not move forward, or moves past the
      end, is taken as a move by one; `ScanStep` never does either. */
  function Scan(s: string, p: nat, step: string -> Step): (r: seq<Found>)
    requires p <= |s|
    ensures forall f :: f in r ==> p <= f.offset < |s|
    decreases |s| - p
  {
    if p == |s| then []
    else
      var st := step(s[p..]);
      var here := if st.hit.Some? then [Found(p, st.hit.value)] else [];
      here + Scan(s, Advance(s, p, st), step)
  }

  /** Where the scan goes on after step `st` at `p`. */
  function Advance(s: string, p: nat, st: Step): (q: nat)
    requires p < |s|
    ensures p < q <= |s|
  {
    if 1 <= st.len <= |s| - p then p + st.len else p + 1
  }

  /** `c_function_def.findall(code)` */
  function FindAll(s: string): (r: seq<Found>)
    ensures forall f :: f in r ==> f.offset < |s|
  {
    Scan(s, 0, ScanStep)
  }

  /** Offsets strictly increase along `r`. */
  predicate InSourceOrder(r: seq<Found>) {
    forall i, j :: 0 <= i < j < |r| ==> r[i].offset < r[j].offset
  }

  /** Every match in `r` lies at or after where the scan went on from
      each earlier match. */
  predicate SkipsAhead(s: string, r: seq<Found>, step: string -> Step) {
    forall i, j :: 0 <= i < j < |r| ==>
      r[i].offset < |s| && Advance(s, r[i].offset, step(s[r[i].offset..])) <= r[j].offset
  }

  /** A scan never reports a match inside what an earlier step consumed. */
  lemma {:induction false} ScanSkips(s: string, p: nat, step: string -> Step)
    requires p <= |s|
    ensures SkipsAhead(s, Scan(s, p, step), step)
    decreases |s| - p
  {
    if p < |s| {
      var st := step(s[p..]);
      var next := Advance(s, p, st);
      ScanSkips(s, next, step);
      var r := Scan(s, p, step);
      var tail := Scan(s, next, step);
      if st.hit.Some? {
        assert r == [Found(p, st.hit.value)] + tail;
        forall i, j | 0 <= i < j < |r|
          ensures r[i].offset < |s| && Advance(s, r[i].offset, step(s[r[i].offset..])) <= r[j].offset
        {
          assert r[j] == tail[j - 1] && r[j] in tail;
          if 0 < i {
            assert r[i] == tail[i - 1];
          } else {
            assert r[i].offset == p && next <= r[j].offset;
          }
        }
      } else {
        assert r == tail;
      }
    }
  }

  /** The matches follow the order of the source. */
  lemma ScanOrdered(s: string, p: nat, step: string -> Step)
    requires p <= |s|
    ensures InSourceOrder(Scan(s, p, step))
  {
    ScanSkips(s, p, step);
  }

  /** Every match is what the step finds where it was found. */
  lemma {:induction false} ScanMatches(s: string, p: nat, step: string -> Step)
    requires p <= |s|
    ensures forall f :: f in Scan(s, p, step) ==> f.offset < |s| && step(s[f.offset..]).hit == Some(f.hit)
    decreases |s| - p
  {
    if p < |s| {
      ScanMatches(s, Advance(s, p, step(s[p..])), step);
    }
  }

  /** The matches `findall` reports are in source order. */
  lemma FindAllOrdered(s: string)
    ensures InSourceOrder(FindAll(s))
  {
    ScanOrdered(s, 0, ScanStep);
  }

  /** Each match `findall` reports is what the scan step finds at its
      offset (`ScanStepHits` says what that is). */
  lemma FindAllMatches(s: string)
    ensures forall f :: f in FindAll(s) ==> f.offset < |s| && ScanStep(s[f.offset..]).hit == Some(f.hit)
  {
    ScanMatches(s, 0, ScanStep);
  }

  /** One entry of the list `findFunctionDefs` returns. */
  datatype FunctionDef = FunctionDef(returnType: string, name: string, rawParams: string)

  /** The entry for one match: none for a literal (`if match[0]` fails),
      the trimmed fields for a function. */
  function DefOf(h: Hit): seq<FunctionDef> {
    match h
    case LiteralHit => []
    case FunctionHit(m) => [FunctionDef(TrimWhite(m.returnType), TrimWhite(m.name), TrimWhite(m.params))]
  }

  /** The loop over the matches of `findFunctionDefs`. */
  function Defs(found: seq<Found>): (defs: seq<FunctionDef>)
    ensures |defs| <= |found|
    decreases |found|
  {
    if found == [] then [] else DefOf(found[0].hit) + Defs(found[1..])
  }

  /** The definitions of consecutive runs of matches are consecutive:
      `findFunctionDefs` reports them in the order of their matches. */
  lemma {:induction false} DefsAppend(a: seq<Found>, b: seq<Found>)
    ensures Defs(a + b) == Defs(a) + Defs(b)
    decreases |a|
  {
    if a == [] {
      assert a + b == b;
    } else {
      assert (a + b)[0] == a[0] && (a + b)[1..] == a[1..] + b;
      DefsAppend(a[1..], b);
    }
  }

  /** `findFunctionDefs(code)` */
  function FindFunctionDefs(code: string): (defs: seq<FunctionDef>)
    ensures |defs| <= |FindAll(code)|
    ensures code == [] ==> defs == []
  {
    Defs(FindAll(code))
  }

  /** Every field of every definition found is trimmed. */
  lemma {:induction false} DefsTrimmed(found: seq<Found>)
    ensures forall d :: d in Defs(found) ==>
              TrimWhite(d.returnType) == d.returnType && TrimWhite(d.name) == d.name
              && TrimWhite(d.rawParams) == d.rawParams
    decreases |found|
  {
    if found != [] {
      DefsTrimmed(found[1..]);
      if found[0].hit.FunctionHit? {
        var m := found[0].hit.m;
        TrimWhiteIdempotent(m.returnType);
        TrimWhiteIdempotent(m.name);
        TrimWhiteIdempotent(m.params);
      }
    }
  }

  /** What a function match guarantees about its name and parameters. */
  predicate HitShape(h: Hit) {
    h.FunctionHit? ==>
      && |h.m.name| > 0 && (forall i :: 0 <= i < |h.m.name| ==> IsWordChar(h.m.name[i]))
      && (forall i :: 0 <= i < |h.m.params| ==> h.m.params[i] != ')')
  }

  /** What `findFunctionDefs` promises about each entry. */
  predicate DefShape(d: FunctionDef) {
    && |d.name| > 0 && (forall i :: 0 <= i < |d.name| ==> IsWordChar(d.name[i]))
    && (forall i :: 0 <= i < |d.rawParams| ==> d.rawParams[i] != ')')
  }

  /** A string with no whitespace at either end is its own trim. */
  lemma TrimWhiteKeeps(s: string)
    requires s != [] && !IsSpace(s[0]) && !IsSpace(s[|s| - 1])
    ensures TrimWhite(s) == s
  {
    assert Skip(s, 0, Space) == 0;
    assert SkipBack(s, 0, |s|, Space) == |s|;
    assert s[0..|s|] == s;
  }

  lemma DefOfShape(h: Hit)
    requires HitShape(h)
    ensures forall d :: d in DefOf(h) ==> DefShape(d)
  {
    if h.FunctionHit? {
      var m := h.m;
      assert IsWordChar(m.name[0]) && IsWordChar(m.name[|m.name| - 1]);
      TrimWhiteKeeps(m.name);
      TrimWhiteStrips(m.params);
      var r := TrimWhite(m.params);
      var i: nat :| CutFrom(m.params, r, i);
      forall k | 0 <= k < |r|
        ensures r[k] != ')'
      {
        assert r[k] == m.params[i..i + |r|][k] == m.params[i + k];
      }
    }
  }

  lemma {:induction false} DefsShape(found: seq<Found>)
    requires forall f :: f in found ==> HitShape(f.hit)
    ensures forall d :: d in Defs(found) ==> DefShape(d)
    decreases |found|
  {
    if found != [] {
      DefOfShape(found[0].hit);
      DefsShape(found[1..]);
    }
  }

  /** Every definition `findFunctionDefs` reports has a non-empty name made
      of word characters and parameters without `)`, and all three of its
      fields are trimmed. */
  lemma FindFunctionDefsShape(code: string)
    ensures forall d :: d in FindFunctionDefs(code) ==>
              && DefShape(d)
              && TrimWhite(d.returnType) == d.returnType && TrimWhite(d.name) == d.name
              && TrimWhite(d.rawParams) == d.rawParams
  {
    var found := FindAll(code);
    FindAllMatches(code);
    forall f | f in found
      ensures HitShape(f.hit)
    {
      ScanStepHits(code[f.offset..]);
    }
    DefsShape(found);
    DefsTrimmed(found);
  }

  /** A literal where the scan stands is skipped whole: it is reported as
      one match, and the scan goes on after it, so nothing inside it,
      however much it looks like a signature, is reported. */
  lemma ScanSkipsLiteral(s: string, p: nat)
    requires p < |s| && LiteralAt(s[p..]).Some?
    ensures var r := Scan(s, p, ScanStep);
      && r != [] && r[0] == Found(p, LiteralHit)
      && forall f :: f in r[1..] ==> p + LiteralAt(s[p..]).value <= f.offset
  {
    var t := s[p..];
    var n := LiteralAt(t).value;
    var st := ScanStep(t);
    assert st == Step(n, Some(LiteralHit));
    assert 1 <= n <= |s| - p;
    assert Advance(s, p, st) == p + n;
    var r := Scan(s, p, ScanStep);
    assert r == [Found(p, LiteralHit)] + Scan(s, p + n, ScanStep);
    assert r[1..] == Scan(s, p + n, ScanStep);
  }

  /** In the whole code, every literal `findall` reports hides its
      contents: each later match starts at or after the literal's end. */
  lemma FindAllSkipsLiterals(s: string)
    ensures var r := FindAll(s);
      forall i, j :: 0 <= i < j < |r| && r[i].hit == LiteralHit ==>
        r[i].offset < |s| && LiteralAt(s[r[i].offset..]).Some?
        && r[i].offset + LiteralAt(s[r[i].offset..]).value <= r[j].offset
  {
    var r := FindAll(s);
    ScanSkips(s, 0, ScanStep);
    assert SkipsAhead(s, r, ScanStep);
    FindAllMatches(s);
    forall i, j | 0 <= i < j < |r| && r[i].hit == LiteralHit
      ensures r[i].offset < |s| && LiteralAt(s[r[i].offset..]).Some?
        && r[i].offset + LiteralAt(s[r[i].offset..]).value <= r[j].offset
    {
      assert r[i] in r;
      ScanStepHits(s[r[i].offset..]);
    }
  }
}
