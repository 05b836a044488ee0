/** The configuration reader of conf.c. */
module Config {

  const NUL := 0 as char

  /** `isspace`: tab, newline, vertical tab, form feed, carriage return and space. */
  predicate IsSpace(c: char): (blank: bool)
    ensures blank <==> c as int in {9, 10, 11, 12, 13, 32}
  {
    c as int == 32 || 9 <= c as int <= 13
  }

  // ----- blanks and comments

  /** From the next newline on. */
  ghost function AfterLine(s: string): (r: string)
    ensures |r| <= |s| && (s != "" && s[0] != '\n' ==> |r| < |s|)
  {
    if s == "" || s[0] == '\n' then s else AfterLine(s[1..])
  }

  /** The text without blanks and comments. */
  ghost function Strip(s: string): string
    decreases |s|
  {
    if s == "" then ""
    else if s[0] == '#' then Strip(AfterLine(s))
    else if IsSpace(s[0]) then Strip(s[1..])
    else [s[0]] + Strip(s[1..])
  }

  /** Every comment ends with its line. */
  ghost predicate Terminated(s: string)
    decreases |s|
  {
    s != "" ==> if s[0] == '#' then AfterLine(s) != "" && Terminated(AfterLine(s)) else Terminated(s[1..])
  }

  ghost function Count(c: char, s: string): (n: nat)
    ensures n <= |s|
  {
    if s == "" then 0 else (if s[0] == c then 1 else 0) + Count(c, s[1..])
  }

  lemma {:induction false} CountConcat(c: char, a: string, b: string)
    ensures Count(c, a + b) == Count(c, a) + Count(c, b)
  {
    if a == "" {
      assert a + b == b;
    } else {
      CountConcat(c, a[1..], b);
      assert (a + b)[1..] == a[1..] + b;
    }
  }

  ghost predicate Without(s: string, c: char) {
    c !in s
  }

  lemma {:induction false} CountNone(c: char, s: string)
    ensures Without(s, c) <==> Count(c, s) == 0
  {
    if s != "" {
      CountNone(c, s[1..]);
    }
  }

  /** What may stand between two characters of the text. */
  datatype Gap = Blank(c: char) | Comment(text: string)

  ghost predicate IsGap(g: Gap) {
    match g
    case Blank(c) => c as int in {9, 10, 11, 12, 13, 32}
    case Comment(text) => Without(text, '\n')
  }

  ghost function OneGap(g: Gap): string {
    match g
    case Blank(c) => [c]
    case Comment(text) => "#" + (text + "\n")
  }

  ghost function GapText(gs: seq<Gap>): string {
    if gs == [] then "" else OneGap(gs[0]) + GapText(gs[1..])
  }

  /** `core` with gaps in front of every character and at the end. */
  ghost function Weave(core: string, gaps: seq<seq<Gap>>): string
    requires |gaps| == |core| + 1
  {
    GapText(gaps[0]) + if core == "" then "" else [core[0]] + Weave(core[1..], gaps[1..])
  }

  lemma {:induction false} SkipComment(text: string, rest: string)
    requires Without(text, '\n')
    ensures AfterLine(text + "\n" + rest) == "\n" + rest
  {
    if text == "" {
      assert text + "\n" + rest == "\n" + rest;
    } else {
      SkipComment(text[1..], rest);
      assert (text + "\n" + rest)[1..] == text[1..] + "\n" + rest;
    }
  }

  /** One gap leaves no trace. */
  lemma StripOne(g: Gap, rest: string)
    requires IsGap(g)
    ensures Strip(OneGap(g) + rest) == Strip(rest) && (Terminated(OneGap(g) + rest) <==> Terminated(rest))
  {
    match g
    case Blank(c) =>
      assert ([c] + rest)[1..] == rest;
    case Comment(text) =>
      CommentText(text, rest);
      SkipComment(text, rest);
      Regroup(text, "\n", rest);
      assert ("#" + (text + ("\n" + rest)))[1..] == text + ("\n" + rest);
      assert ("\n" + rest)[1..] == rest;
  }

  lemma FirstGap(gs: seq<Gap>, rest: string)
    requires gs != []
    ensures GapText(gs) + rest == OneGap(gs[0]) + (GapText(gs[1..]) + rest)
  {
    Regroup(OneGap(gs[0]), GapText(gs[1..]), rest);
  }

  lemma {:induction false} StripGap(gs: seq<Gap>, rest: string)
    requires forall g | g in gs :: IsGap(g)
    ensures Strip(GapText(gs) + rest) == Strip(rest)
    ensures Terminated(GapText(gs) + rest) <==> Terminated(rest)
  {
    hide Strip, Terminated;
    if gs == [] {
      assert GapText(gs) + rest == rest;
    } else {
      FirstGap(gs, rest);
      StripOne(gs[0], GapText(gs[1..]) + rest);
      StripGap(gs[1..], rest);
    }
  }

  /** Nothing of a gap. */
  ghost predicate Dense(s: string) {
    forall i | 0 <= i < |s| :: s[i] != '#' && s[i] as int !in {9, 10, 11, 12, 13, 32}
  }

  /** Blanks, and comments that end with their line, leave no trace. */
  lemma {:induction false} StripWeave(core: string, gaps: seq<seq<Gap>>)
    requires |gaps| == |core| + 1 && Dense(core) && forall gs, g | gs in gaps && g in gs :: IsGap(g)
    ensures Strip(Weave(core, gaps)) == core && Terminated(Weave(core, gaps))
  {
    var rest := if core == "" then "" else [core[0]] + Weave(core[1..], gaps[1..]);
    StripGap(gaps[0], rest);
    if core != "" {
      assert gaps[1..][0..] == gaps[1..];
      StripWeave(core[1..], gaps[1..]);
      assert rest[1..] == Weave(core[1..], gaps[1..]);
      assert core == [core[0]] + core[1..];
    }
  }

  lemma {:induction false} LineParts(s: string) returns (text: string)
    ensures s == text + AfterLine(s) && Without(text, '\n') && (AfterLine(s) != "" ==> AfterLine(s)[0] == '\n')
  {
    if s == "" || s[0] == '\n' {
      text := "";
      assert s == text + s;
    } else {
      text := LineParts(s[1..]);
      Regroup([s[0]], text, AfterLine(s[1..]));
      assert s == [s[0]] + s[1..];
      text := [s[0]] + text;
    }
  }

  /** One more gap in front. */
  lemma Widened(core: string, g: Gap, gaps: seq<seq<Gap>>) returns (wide: seq<seq<Gap>>)
    requires |gaps| == |core| + 1 && IsGap(g) && forall gs, g | gs in gaps && g in gs :: IsGap(g)
    ensures |wide| == |core| + 1 && Weave(core, wide) == OneGap(g) + Weave(core, gaps)
    ensures forall gs, g | gs in wide && g in gs :: IsGap(g)
  {
    var first := [g] + gaps[0];
    wide := [first] + gaps[1..];
    WovenWider(core, g, gaps, wide);
    hide Weave;
    forall gs, g' | gs in wide && g' in gs ensures IsGap(g') {
      assert gs == first || gs in gaps;
      assert gs == first ==> g' == g || g' in gaps[0];
    }
  }

  lemma WovenWider(core: string, g: Gap, gaps: seq<seq<Gap>>, wide: seq<seq<Gap>>)
    requires |gaps| == |core| + 1 && wide == [[g] + gaps[0]] + gaps[1..]
    ensures Weave(core, wide) == OneGap(g) + Weave(core, gaps)
  {
    var first := [g] + gaps[0];
    var tail := if core == "" then "" else [core[0]] + Weave(core[1..], gaps[1..]);
    assert first[1..] == gaps[0] && wide[1..] == gaps[1..];
    assert Weave(core, gaps) == GapText(gaps[0]) + tail && Weave(core, wide) == GapText(first) + tail;
    assert GapText(first) == OneGap(g) + GapText(gaps[0]);
    hide Weave, GapText, OneGap;
    Regroup(OneGap(g), GapText(gaps[0]), tail);
  }

  lemma BlankFirst(s: string)
    requires s != "" && IsSpace(s[0]) && Terminated(s)
    ensures s == OneGap(Blank(s[0])) + s[1..] && s[0] != '#' && Terminated(s[1..]) && Strip(s) == Strip(s[1..])
  {
  }

  lemma CommentLine(s: string) returns (text: string, rest: string)
    requires s != "" && s[0] == '#' && Terminated(s)
    ensures s == OneGap(Comment(text)) + rest && IsGap(Comment(text))
    ensures |rest| < |s| && Terminated(rest) && Strip(s) == Strip(rest)
  {
    text := LineParts(s[1..]);
    var more := AfterLine(s[1..]);
    assert AfterLine(s) == more && more != "" && Terminated(more) && Strip(s) == Strip(more);
    hide AfterLine, OneGap, Terminated, Strip, Without;
    BlankFirst(more);
    rest := more[1..];
    CommentParts(s, text, more);
  }

  lemma CommentParts(s: string, text: string, more: string)
    requires s != "" && s[0] == '#' && s[1..] == text + more && more != "" && more[0] == '\n'
    ensures s == OneGap(Comment(text)) + more[1..]
  {
    hide OneGap;
    CommentText(text, more[1..]);
    assert more == "\n" + more[1..];
    assert s == "#" + s[1..];
  }

  lemma CommentText(text: string, rest: string)
    ensures OneGap(Comment(text)) + rest == "#" + (text + ("\n" + rest))
  {
    Regroup("#", text + "\n", rest);
    Regroup(text, "\n", rest);
  }

  lemma OtherFirst(s: string, gaps: seq<seq<Gap>>)
    requires s != "" && s[0] != '#' && !IsSpace(s[0]) && Terminated(s) && |gaps| == |Strip(s[1..])| + 1
    ensures Strip(s) == [s[0]] + Strip(s[1..]) && Terminated(s[1..])
    ensures Weave(Strip(s), [[]] + gaps) == [s[0]] + Weave(Strip(s[1..]), gaps)
  {
    assert Strip(s)[1..] == Strip(s[1..]) && ([[]] + gaps)[1..] == gaps;
  }

  /** Every text is what is left of it with gaps put in: nothing but gaps is dropped, and none is left. */
  lemma {:induction false} Unweave(s: string) returns (gaps: seq<seq<Gap>>)
    requires Terminated(s)
    ensures Dense(Strip(s)) && |gaps| == |Strip(s)| + 1 && s == Weave(Strip(s), gaps)
    ensures forall gs, g | gs in gaps && g in gs :: IsGap(g)
    decreases |s|
  {
    if s == "" {
      gaps := [[]];
    } else if s[0] == '#' {
      var text, rest := CommentLine(s);
      hide Terminated, Strip, OneGap, GapText, Weave;
      gaps := Unweave(rest);
      gaps := Widened(Strip(s), Comment(text), gaps);
    } else if IsSpace(s[0]) {
      BlankFirst(s);
      hide Terminated, Strip, OneGap, GapText, Weave;
      gaps := Unweave(s[1..]);
      gaps := Widened(Strip(s), Blank(s[0]), gaps);
    } else {
      assert Terminated(s[1..]);
      hide Terminated, GapText, Weave;
      gaps := Unweave(s[1..]);
      OtherFirst(s, gaps);
      gaps := [[]] + gaps;
      hide Strip;
      assert s == [s[0]] + s[1..];
    }
  }

  lemma StripDense(s: string)
    requires Terminated(s)
    ensures Dense(Strip(s))
  {
    var gaps := Unweave(s);
  }

  // ----- sections

  datatype Var = Var(name: string, value: string)

  /** What stands between the braces: assignments and perhaps a rest that is no assignment, lines in which the numbers
      of `=` and `;` differ, or nothing that ends with a semicolon. */
  datatype Body = Pairs(vars: seq<Var>, tail: string) | Uneven(text: string) | Bare(text: string)

  /** A stretch of text up to a closing brace: a section, or one whose head the reader rejects. */
  datatype Raw = Section(name: string, arg: string, body: Body) | Faulty(head: string, rest: string)

  ghost function PairText(vs: seq<Var>): string {
    if vs == [] then "" else vs[0].name + "=" + vs[0].value + ";" + PairText(vs[1..])
  }

  ghost function Head(r: Raw): string {
    match r
    case Section(name, arg, _) => name + "(" + arg + ")"
    case Faulty(head, _) => head
  }

  ghost function Inner(r: Raw): string {
    match r
    case Section(_, _, Pairs(vs, tail)) => PairText(vs) + tail
    case Section(_, _, Uneven(text)) => text
    case Section(_, _, Bare(text)) => text
    case Faulty(_, rest) => rest
  }

  ghost function Text(r: Raw): string {
    Head(r) + "{" + Inner(r) + "}"
  }

  ghost function Texts(rs: seq<Raw>): string {
    if rs == [] then "" else Text(rs[0]) + Texts(rs[1..])
  }

  /** No braces and no terminating character. */
  ghost predicate Plain(s: string) {
    Without(s, '{') && Without(s, '}') && Without(s, NUL)
  }

  ghost predicate Word(s: string) {
    Plain(s) && Without(s, '(') && Without(s, ')')
  }

  ghost predicate Item(s: string) {
    Word(s) && Without(s, '=') && Without(s, ';')
  }

  /** `__is_section_head_valid` looks at the whole section. */
  ghost predicate OneBracket(s: string) {
    Count('(', s) == 1 && Count(')', s) == 1
  }

  /** The texts the reader can cope with: it accepts them or says what is wrong. */
  ghost predicate Fit(r: Raw) {
    match r
    case Section(name, arg, body) =>
      && Word(name) && Word(arg) && |name| + |arg| > 0
      && (match body
          case Pairs(vs, tail) => vs != [] && Item(tail) && forall v | v in vs :: Item(v.name) && Item(v.value)
          case Uneven(text) => Word(text) && Count(';', text) > 0 && Count('=', text) != Count(';', text)
          case Bare(text) => Word(text) && Without(text, ';'))
    case Faulty(head, rest) =>
      Plain(head) && Plain(rest) && (|head| < 3 || !OneBracket(Text(r)))
  }

  // ----- reading

  lemma StripStep(b: string, t: nat)
    requires t < |b| && Terminated(b[t..])
    ensures b[t] == '#' ==>
      var r := AfterLine(b[t..]); r != "" && Terminated(r) && Strip(b[t..]) == Strip(r)
    ensures b[t] != '#' ==> Terminated(b[t + 1..])
    ensures b[t] != '#' ==> Strip(b[t..]) == if IsSpace(b[t]) then Strip(b[t + 1..]) else [b[t]] + Strip(b[t + 1..])
  {
    assert b[t..][1..] == b[t + 1..];
  }

  lemma CountStep(c: char, x: char, rest: string)
    ensures Count(c, [x] + rest) == (if x == c then 1 else 0) + Count(c, rest)
  {
    assert ([x] + rest)[1..] == rest;
  }

  lemma Shift<T>(a: seq<T>, x: T, b: seq<T>)
    ensures a + ([x] + b) == (a + [x]) + b
  {
  }

  lemma StripNothing()
    ensures Strip("") == "" && Count('{', "") == 0 && Count('}', "") == 0
  {
  }

  /** The blanks and comments go, and the braces are counted on the way. */
  method Preprocess(buffer: string) returns (buf: array<char>, f: nat, ss: nat, es: nat)
    requires Terminated(buffer)
    ensures fresh(buf) && f < buf.Length && buf[..f] == Strip(buffer) && forall j | f <= j < buf.Length :: buf[j] == NUL
    ensures Dense(buf[..f])
    ensures ss == Count('{', Strip(buffer)) && es == Count('}', Strip(buffer))
  {
    hide Strip, Terminated, Count, Dense;
    ghost var core := Strip(buffer);
    StripDense(buffer);
    StripNothing();
    buf := new char[|buffer| + 1](_ => NUL);
    f, ss, es := 0, 0, 0;
    var t := 0;
    assert buffer[0..] == buffer;
    while t < |buffer|
      invariant f <= t <= |buffer| && Terminated(buffer[t..]) && core == buf[..f] + Strip(buffer[t..])
      invariant forall j | f <= j < buf.Length :: buf[j] == NUL
      invariant ss + Count('{', Strip(buffer[t..])) == Count('{', core)
      invariant es + Count('}', Strip(buffer[t..])) == Count('}', core)
    {
      StripStep(buffer, t);
      if buffer[t] == '#' {
        t := LineEnd(buffer, t);
      } else if buffer[t] == '\n' || IsSpace(buffer[t]) {
        t := t + 1;
      } else {
        ghost var rest := Strip(buffer[t + 1..]);
        CountStep('{', buffer[t], rest);
        CountStep('}', buffer[t], rest);
        Shift(buf[..f], buffer[t], rest);
        buf[f] := buffer[t];
        assert buf[..f + 1] == buf[..f] + [buffer[t]];
        if buf[f] == '{' {
          ss := ss + 1;
        }
        if buf[f] == '}' {
          es := es + 1;
        }
        f := f + 1;
        t := t + 1;
      }
    }
    assert buffer[t..] == "" && buf[..f] + "" == buf[..f];
  }

  method LineEnd(buffer: string, t0: nat) returns (t: nat)
    requires t0 < |buffer| && buffer[t0] == '#' && AfterLine(buffer[t0..]) != ""
    ensures t0 < t < |buffer| && buffer[t..] == AfterLine(buffer[t0..])
  {
    t := t0;
    while buffer[t] != '\n'
      invariant t0 <= t < |buffer| && AfterLine(buffer[t..]) == AfterLine(buffer[t0..])
      decreases |buffer| - t
    {
      assert buffer[t..][1..] == buffer[t + 1..];
      t := t + 1;
    }
  }

  ghost predicate Spells(b: seq<char>, p: nat, w: string) {
    p + |w| <= |b| && b[p..p + |w|] == w
  }

  lemma Letters(b: seq<char>, p: nat, w: string)
    requires Spells(b, p, w)
    ensures forall j | 0 <= j < |w| :: b[p + j] == w[j]
  {
    forall j | 0 <= j < |w| ensures b[p + j] == w[j] {
      assert b[p..p + |w|][j] == b[p + j];
    }
  }

  /** A text and the character behind it. */
  lemma LettersUpTo(b: seq<char>, p: nat, w: string, c: char)
    requires Spells(b, p, w + [c])
    ensures p + |w| < |b| && b[p + |w|] == c && forall j | 0 <= j < |w| :: b[p + j] == w[j]
  {
    Letters(b, p, w + [c]);
    assert (w + [c])[|w|] == c;
    forall j | 0 <= j < |w| ensures b[p + j] == w[j] {
      assert (w + [c])[j] == w[j];
    }
  }

  /** `while(*y!=c) y++`. */
  method Seek(buf: array<char>, p: nat, c: char, ghost w: string) returns (q: nat)
    requires Spells(buf[..], p, w + [c]) && Without(w, c)
    ensures q == p + |w| && buf[q] == c
  {
    q := p;
    LettersUpTo(buf[..], p, w, c);
    while buf[q] != c
      invariant p <= q <= p + |w|
      decreases p + |w| - q
    {
      q := q + 1;
    }
  }

  /** The text in front of a character, which gives way to a terminating one while it is copied. */
  method CutOut(buf: array<char>, p: nat, e: nat, ghost w: string) returns (copy: string)
    requires p + |w| <= e < buf.Length && Spells(buf[..], p, w) && Without(w, NUL)
    requires p + |w| == e || buf[p + |w|] == NUL
    modifies buf
    ensures copy == w && buf[..] == old(buf[..])
  {
    var c := buf[e];
    buf[e] := NUL;
    assert buf[..][p..p + |w|] == w;
    assert buf[..][p..p + |w| + 1] == w + [NUL];
    copy := StrDup(buf, p, w);
    buf[e] := c;
    assert buf[..] == old(buf[..]);
  }

  /** `strdup`. */
  method StrDup(buf: array<char>, p: nat, ghost w: string) returns (copy: string)
    requires Spells(buf[..], p, w + [NUL]) && Without(w, NUL)
    ensures copy == w
  {
    copy := "";
    LettersUpTo(buf[..], p, w, NUL);
    while buf[p + |copy|] != NUL
      invariant |copy| <= |w| && copy == w[..|copy|]
      decreases |w| - |copy|
    {
      copy := copy + [buf[p + |copy|]];
    }
  }

  /** `__is_section_head_valid`. */
  method HeadValid(buf: array<char>, p: nat, ghost w: string) returns (valid: bool)
    requires Spells(buf[..], p, w + [NUL]) && Without(w, NUL)
    ensures valid <==> OneBracket(w)
  {
    var y, ss, es := p, 0, 0;
    LettersUpTo(buf[..], p, w, NUL);
    assert w[0..] == w;
    while buf[y] != NUL
      invariant p <= y <= p + |w|
      invariant ss + Count('(', w[y - p..]) == Count('(', w) && es + Count(')', w[y - p..]) == Count(')', w)
      decreases p + |w| - y
    {
      assert buf[p + (y - p)] == w[y - p] && w[y - p..][1..] == w[y + 1 - p..];
      if buf[y] == '(' {
        ss := ss + 1;
      }
      if buf[y] == ')' {
        es := es + 1;
      }
      y := y + 1;
    }
    return ss != 0 && es != 0 && ss == es && ss <= 1 && es <= 1;
  }

  /** `__scan_section_lines`. */
  method ScanLines(buf: array<char>, p: nat, ghost w: string) returns (l: nat)
    requires Spells(buf[..], p, w + "}") && Without(w, '}') && Without(w, NUL)
    ensures l == Count(';', w)
  {
    var u := p;
    l := 0;
    LettersUpTo(buf[..], p, w, '}');
    assert w[0..] == w;
    while buf[u] != '}' && buf[u] != NUL
      invariant p <= u <= p + |w| && l + Count(';', w[u - p..]) == Count(';', w)
      decreases p + |w| - u
    {
      assert buf[p + (u - p)] == w[u - p];
      assert w[u - p..][1..] == w[u + 1 - p..];
      if buf[u] == ';' {
        l := l + 1;
      }
      u := u + 1;
    }
  }

  lemma SpellsParts(b: seq<char>, p: nat, a: string, c: string)
    requires Spells(b, p, a + c)
    ensures Spells(b, p, a) && Spells(b, p + |a|, c)
  {
    assert b[p..p + |a|] == (a + c)[..|a|] == a;
    assert b[p + |a|..p + |a| + |c|] == (a + c)[|a|..] == c;
  }

  /** Where the delimiters of a section are. */
  lemma SectionLayout(b: seq<char>, p: nat, r: Raw)
    requires r.Section? && Spells(b, p, Text(r))
    ensures Spells(b, p, r.name + "(") && Spells(b, p + |r.name| + 1, r.arg + ")")
    ensures Spells(b, p + |r.name| + |r.arg| + 3, Inner(r) + "}")
  {
    var n, a := r.name, r.arg;
    assert Text(r) == (n + "(") + ((a + ")") + ("{" + (Inner(r) + "}")));
    hide Text, Inner;
    SpellsParts(b, p, n + "(", (a + ")") + ("{" + (Inner(r) + "}")));
    SpellsParts(b, p + |n| + 1, a + ")", "{" + (Inner(r) + "}"));
    SpellsParts(b, p + |n| + |a| + 2, "{", Inner(r) + "}");
  }

  lemma HeadLayout(b: seq<char>, p: nat, r: Raw)
    requires Spells(b, p, Text(r))
    ensures Spells(b, p, Head(r)) && Spells(b, p, Head(r) + "{") && Spells(b, p, (Head(r) + "{" + Inner(r)) + "}")
  {
    assert Text(r) == (Head(r) + "{") + (Inner(r) + "}");
    SpellsParts(b, p, Head(r) + "{", Inner(r) + "}");
    SpellsParts(b, p, Head(r), "{");
  }

  lemma {:induction false} PairTextPlain(vs: seq<Var>)
    requires forall v | v in vs :: Item(v.name) && Item(v.value)
    ensures Word(PairText(vs)) && Count(';', PairText(vs)) == |vs| == Count('=', PairText(vs))
  {
    if vs != [] {
      var v := vs[0];
      assert Item(v.name) && Item(v.value);
      PairTextPlain(vs[1..]);
      PairCount(v, PairText(vs[1..]), ';');
      PairCount(v, PairText(vs[1..]), '=');
      CountNone(';', v.name);
      CountNone(';', v.value);
      CountNone('=', v.name);
      CountNone('=', v.value);
    }
  }

  lemma PairCount(v: Var, rest: string, c: char)
    ensures Count(c, v.name + "=" + v.value + ";" + rest) ==
      Count(c, v.name) + (if c == '=' then 1 else 0) + Count(c, v.value) + (if c == ';' then 1 else 0) + Count(c, rest)
  {
    CountConcat(c, v.name + "=" + v.value + ";", rest);
    CountConcat(c, v.name + "=" + v.value, ";");
    CountConcat(c, v.name + "=", v.value);
    CountConcat(c, v.name, "=");
    assert Count(c, ";") == if c == ';' then 1 else 0;
    assert Count(c, "=") == if c == '=' then 1 else 0;
  }

  lemma InnerWord(r: Raw)
    requires Fit(r) && r.Section?
    ensures Word(Inner(r)) && (Count(';', Inner(r)) == 0 <==> r.body.Bare?)
    ensures r.body.Pairs? ==> Count(';', Inner(r)) == |r.body.vars| == Count('=', Inner(r))
  {
    CountNone(';', Inner(r));
    if r.body.Pairs? {
      PairTextPlain(r.body.vars);
      CountNone(';', r.body.tail);
      CountNone('=', r.body.tail);
      CountConcat(';', PairText(r.body.vars), r.body.tail);
      CountConcat('=', PairText(r.body.vars), r.body.tail);
    }
  }

  /** The head of a section is long enough and its brackets are the only ones. */
  lemma SectionValid(r: Raw)
    requires Fit(r) && r.Section?
    ensures |Head(r)| >= 3 && OneBracket(Text(r))
  {
    InnerWord(r);
    SectionBrackets(r, '(');
    SectionBrackets(r, ')');
  }

  lemma SectionBrackets(r: Raw, c: char)
    requires r.Section? && c in "()" && Without(r.name, c) && Without(r.arg, c) && Without(Inner(r), c)
    ensures Count(c, Text(r)) == 1
  {
    CountNone(c, r.name);
    CountNone(c, r.arg);
    CountNone(c, Inner(r));
    CountConcat(c, Head(r) + "{" + Inner(r), "}");
    CountConcat(c, Head(r) + "{", Inner(r));
    CountConcat(c, Head(r), "{");
    CountConcat(c, r.name + "(" + r.arg, ")");
    CountConcat(c, r.name + "(", r.arg);
    CountConcat(c, r.name, "(");
    assert Count(c, "(") + Count(c, ")") == 1 && Count(c, "{") == 0 && Count(c, "}") == 0;
  }

  lemma TextPlain(r: Raw)
    requires Fit(r)
    ensures Plain(Head(r)) && Plain(Inner(r)) && Without(Text(r), NUL) && Without(Head(r) + "{" + Inner(r), '}')
    ensures Text(r) == (Head(r) + "{" + Inner(r)) + "}" == (Head(r) + "{") + (Inner(r) + "}")
  {
    if r.Section? {
      InnerWord(r);
    }
  }

  /** The checks on a chunk that ends with a closing brace, when the next opening brace comes after `far`. */
  ghost predicate Passes(chunk: string, far: string) {
    |far| >= 3 && |chunk| >= 3 && OneBracket(chunk)
  }

  /** What is copied of the lines: nothing if there is no semicolon. */
  ghost function Data(r: Raw): string {
    if r.Section? && r.body.Bare? then "" else Inner(r)
  }

  /** `*buf+=sizeof(char)*2`, which moves no pointer but changes the first character behind the opening brace. */
  function Raised(c: char): (d: char)
    ensures d as int == (c as int + 2) % 256
  {
    ((c as int + 2) % 256) as char
  }

  ghost function Touched(b: seq<char>, p: nat, r: Raw): seq<char>
    requires r.Section? && Spells(b, p, Text(r))
  {
    var k := p + |r.name| + |r.arg| + 3;
    if r.body.Bare? then b[k := Raised(b[k])] else b
  }

  /** `__readwseek_section`: one section, of which the character behind it has been replaced by a terminating one. */
  method ReadSeek(buf: array<char>, p: nat, ghost chunk: string, ghost far: string, ghost r: Raw)
    returns (ok: bool, name: string, arg: string, data: string)
    requires Spells(buf[..], p, chunk + [NUL]) && Spells(buf[..], p, far + "{") && Without(chunk, NUL)
      && Without(far, '{')
    requires Passes(chunk, far) ==> Fit(r) && r.Section? && Text(r) == chunk && Spells(buf[..], p, Text(r))
    modifies buf
    ensures ok <==> Passes(chunk, far)
    ensures buf[..] == if ok then Touched(old(buf[..]), p, r) else old(buf[..])
    ensures ok ==> name == r.name && arg == r.arg && data == Data(r)
  {
    hide Text, Head, Inner, Fit, Spells, OneBracket, Word, Without, Passes, Raised;
    name, arg, data := "", "", "";
    ok := CheckHead(buf, p, chunk, far);
    if !ok {
      return;
    }
    SpellsParts(buf[..], p, chunk, [NUL]);
    SectionLayout(buf[..], p, r);
    SectionWords(r);
    var q;
    q, name, arg := ReadHead(buf, p, r.name, r.arg);
    data := ReadData(buf, q, Inner(r));
  }

  /** The head must have at least three characters and the section one pair of brackets. */
  method CheckHead(buf: array<char>, p: nat, ghost chunk: string, ghost far: string) returns (ok: bool)
    requires Spells(buf[..], p, chunk + [NUL]) && Spells(buf[..], p, far + "{") && Without(chunk, NUL)
      && Without(far, '{')
    modifies buf
    ensures buf[..] == old(buf[..]) && (ok <==> Passes(chunk, far))
  {
    ghost var head := if |far| <= |chunk| then far else chunk;
    LettersUpTo(buf[..], p, chunk, NUL);
    LettersUpTo(buf[..], p, far, '{');
    SpellsParts(buf[..], p, chunk, [NUL]);
    SpellsParts(buf[..], p, far, "{");
    assert |far| <= |chunk| ==> forall j | 0 <= j < |far| :: far[j] == chunk[j];
    hide Spells, OneBracket;
    var u := Seek(buf, p, '{', far);
    var copy := CutOut(buf, p, u, head);
    if |copy| < 3 {
      return false;
    }
    ok := HeadValid(buf, p, chunk);
  }

  /** Name and argument; `q` is behind the opening brace. */
  method ReadHead(buf: array<char>, p: nat, ghost n: string, ghost a: string)
    returns (q: nat, name: string, arg: string)
    requires Spells(buf[..], p, n + "(") && Spells(buf[..], p + |n| + 1, a + ")") && Word(n) && Word(a)
    modifies buf
    ensures buf[..] == old(buf[..]) && name == n && arg == a && q == p + |n| + |a| + 3
  {
    SpellsParts(buf[..], p, n, "(");
    hide Spells, Without;
    q := Seek(buf, p, '(', n);
    name := CutOut(buf, p, q, n);
    q, arg := ReadArg(buf, q + 1, a);
    q := q + 2;
  }

  /** Nothing is copied when the brackets are empty. */
  method ReadArg(buf: array<char>, p: nat, ghost a: string) returns (q: nat, arg: string)
    requires Spells(buf[..], p, a + ")") && Word(a)
    modifies buf
    ensures buf[..] == old(buf[..]) && arg == a && q == p + |a|
  {
    SpellsParts(buf[..], p, a, ")");
    FirstLetter(buf[..], p, a, ')');
    hide Spells, Without;
    q, arg := p, "";
    if buf[q] != ')' {
      q := Seek(buf, q, ')', a);
      arg := CutOut(buf, p, q, a);
    }
  }

  method ReadData(buf: array<char>, q: nat, ghost w: string) returns (data: string)
    requires Spells(buf[..], q, w + "}") && Word(w)
    modifies buf
    ensures if Count(';', w) == 0 then data == "" && q < |old(buf[..])| && buf[..] == old(buf[..][q := Raised(buf[q])])
            else data == w && buf[..] == old(buf[..])
  {
    LettersUpTo(buf[..], q, w, '}');
    SpellsParts(buf[..], q, w, "}");
    hide Spells, Without, Raised;
    var lines := ScanLines(buf, q, w);
    if lines == 0 {
      buf[q] := Raised(buf[q]);
      return "";
    }
    var e := Seek(buf, q, '}', w);
    data := CutOut(buf, q, e, w);
  }

  lemma Verdict(r: Raw)
    requires Fit(r)
    ensures r.Section? <==> |Head(r)| >= 3 && OneBracket(Text(r))
  {
    if r.Section? {
      SectionValid(r);
    }
  }

  lemma SectionWords(r: Raw)
    requires Fit(r) && r.Section?
    ensures Word(r.name) && Word(r.arg) && Word(Inner(r)) && (Count(';', Inner(r)) == 0 <==> r.body.Bare?)
  {
    InnerWord(r);
  }

  lemma FirstLetter(b: seq<char>, p: nat, w: string, c: char)
    requires Spells(b, p, w + [c]) && Without(w, c)
    ensures p < |b| && (b[p] == c <==> w == "")
  {
    LettersUpTo(b, p, w, c);
    assert w != "" ==> b[p + 0] == w[0];
  }

  /** The variables of a section in the tree: a table, the null pointer, or a field that is never written. */
  datatype Lines = Table(vars: seq<Var>) | Broken | Unset

  /** What `read_syn_tree` leaves in the tree for one section: an empty argument is stored as `ERR`. */
  datatype Entry = Entry(name: string, arg: string, lines: Lines)
  datatype Result = Failed | Read(entries: seq<Entry>)

  ghost function Meaning(r: Raw): Entry
    requires r.Section?
  {
    Entry(r.name, if r.arg == "" then "ERR" else r.arg,
      match r.body
      case Pairs(vs, _) => Table(vs)
      case Uneven(_) => Broken
      case Bare(_) => Unset)
  }

  ghost function Meanings(rs: seq<Raw>): seq<Entry>
    requires forall r | r in rs :: r.Section?
  {
    if rs == [] then [] else [Meaning(rs[0])] + Meanings(rs[1..])
  }

  /** `__scan_line_expr`: are there as many equality signs as semicolons? */
  method ScanExpr(data: string, n: nat) returns (d: int)
    requires Without(data, NUL)
    ensures d == n - Count('=', data)
  {
    var o, h := 0, 0;
    assert data[0..] == data;
    while o < |data|
      invariant o <= |data| && h + Count('=', data[o..]) == Count('=', data)
    {
      assert data[o..][1..] == data[o + 1..];
      if data[o] == '=' {
        h := h + 1;
      }
      o := o + 1;
    }
    d := n - h;
  }

  /** The loop over the lines of a section: a name up to `=`, a value up to `;`. */
  method ReadVars(data: string, lines: nat, ghost vs: seq<Var>, ghost tail: string) returns (vars: seq<Var>)
    requires data == PairText(vs) + tail && lines == |vs| && forall v | v in vs :: Item(v.name) && Item(v.value)
    ensures vars == vs
  {
    hide PairText, Spells, Without, Item;
    vars := [];
    var uui, sl := 0, lines;
    assert data[0..] == data && vs[0..] == vs;
    while sl != 0
      invariant |vars| + sl == |vs| && vars == vs[..|vars|]
      invariant uui <= |data| && data[uui..] == PairText(vs[|vars|..]) + tail
    {
      ghost var v, rest := vs[|vars|], PairText(vs[|vars| + 1..]) + tail;
      PairStep(vs, |vars|);
      PairLayout(data, uui, v, rest);
      var expr := uui;
      uui := Skip(data, uui, '=', v.name);
      var name := data[expr..uui];
      uui := uui + 1;
      expr := uui;
      uui := Skip(data, uui, ';', v.value);
      var value := data[expr..uui];
      vars := vars + [Var(name, value)];
      uui := uui + 1;
      sl := sl - 1;
    }
    assert vs[..|vs|] == vs;
  }

  lemma PairLayout(data: string, u: nat, v: Var, rest: string)
    requires u <= |data| && data[u..] == v.name + "=" + v.value + ";" + rest
    ensures Spells(data, u, v.name + "=") && Spells(data, u, v.name)
    ensures Spells(data, u + |v.name| + 1, v.value + ";") && Spells(data, u + |v.name| + 1, v.value)
    ensures u + |v.name| + |v.value| + 2 <= |data| && data[u + |v.name| + |v.value| + 2..] == rest
  {
    var a, b := v.name + "=", v.value + ";";
    assert data[u..] == a + (b + rest);
    assert Spells(data, u, a + (b + rest));
    SpellsParts(data, u, a, b + rest);
    SpellsParts(data, u, v.name, "=");
    SpellsParts(data, u + |a|, b, rest);
    SpellsParts(data, u + |a|, v.value, ";");
  }

  lemma PairStep(vs: seq<Var>, i: nat)
    requires i < |vs| && forall v | v in vs :: Item(v.name) && Item(v.value)
    ensures var v := vs[i];
      PairText(vs[i..]) == v.name + "=" + v.value + ";" + PairText(vs[i + 1..]) && Without(v.name, '=')
        && Without(v.value, ';')
    ensures vs[..i + 1] == vs[..i] + [vs[i]] && vs[i] == Var(vs[i].name, vs[i].value)
  {
    assert vs[i..][0] == vs[i] && vs[i..][1..] == vs[i + 1..] && vs[i] in vs;
  }

  method Skip(data: string, u: nat, c: char, ghost w: string) returns (q: nat)
    requires Spells(data, u, w + [c]) && Without(w, c)
    ensures q == u + |w| && q < |data| && data[u..q] == w
  {
    q := u;
    LettersUpTo(data, u, w, c);
    while data[q] != c
      invariant u <= q <= u + |w|
      decreases u + |w| - q
    {
      q := q + 1;
    }
  }

  /** `read_section`: up to the next closing brace, whose successor is out of the way while the section is read. */
  method ReadSection(buf: array<char>, p: nat, ghost w: string, ghost far: string, ghost r: Raw)
    returns (ok: bool, name: string, arg: string, data: string)
    requires Spells(buf[..], p, w + "}") && Without(w, '}') && Without(w, NUL) && p + |w| + 1 < buf.Length
    requires Spells(buf[..][p + |w| + 1 := NUL], p, far + "{") && Without(far, '{')
    requires Passes(w + "}", far) ==> Fit(r) && r.Section? && Text(r) == w + "}"
    modifies buf
    ensures ok <==> Passes(w + "}", far)
    ensures buf[..] == if ok then Touched(old(buf[..]), p, r) else old(buf[..])
    ensures ok ==> name == r.name && arg == r.arg && data == Data(r)
  {
    hide Text, Head, Inner, Fit, Passes, OneBracket, Raised;
    var y := Seek(buf, p, '}', w);
    y := y + 1;
    var t := buf[y];
    ghost var b := buf[..];
    buf[y] := NUL;
    assert buf[..] == b[y := NUL];
    SpellsBefore(b, p, w + "}", y, NUL);
    assert buf[..][p..p + |w| + 2] == (w + "}") + [NUL];
    ok, name, arg, data := ReadSeek(buf, p, w + "}", far, r);
    buf[y] := t;
    if ok {
      TextLength(r);
      TouchedBack(b, p, r, NUL);
    }
  }

  /** Every stretch is fit; and where the text of the last but one was left uncopied, the last one has a head. */
  ghost predicate AllFit(rs: seq<Raw>) {
    (forall r | r in rs :: Fit(r)) && (|rs| >= 2 && Lax(rs[|rs| - 2]) ==> Head(rs[|rs| - 1]) != "")
  }

  ghost predicate AllSections(rs: seq<Raw>) {
    forall r | r in rs :: r.Section?
  }

  /** A text without semicolons is not copied, so that the advance does not take it into account. */
  ghost predicate Lax(r: Raw) {
    r.Section? && r.body.Bare? && r.body.text != ""
  }

  ghost predicate Stuck(rs: seq<Raw>) {
    exists i | 0 <= i < |rs| - 1 :: Lax(rs[i])
  }

  /** What reading comes to: the braces must match, there must be a section, no head may be rejected, and every section
      but the last must be empty or have a semicolon. */
  ghost function Outcome(core: string, rs: seq<Raw>): Result {
    if Count('{', core) != Count('}', core) || rs == [] || !AllSections(rs) || Stuck(rs) then Failed
    else Read(Meanings(rs))
  }

  lemma {:induction false} TextsCount(rs: seq<Raw>)
    requires forall r | r in rs :: Fit(r)
    ensures Count('{', Texts(rs)) == |rs| == Count('}', Texts(rs))
  {
    if rs != [] {
      var r := rs[0];
      assert Fit(r) && forall q | q in rs[1..] :: q in rs;
      TextsCount(rs[1..]);
      CountConcat('{', Text(r), Texts(rs[1..]));
      CountConcat('}', Text(r), Texts(rs[1..]));
      BraceCount(r, '{');
      BraceCount(r, '}');
    }
  }

  lemma BraceCount(r: Raw, c: char)
    requires Fit(r) && c in "{}"
    ensures Count(c, Text(r)) == 1
  {
    if r.Section? {
      InnerWord(r);
    }
    CountNone(c, Head(r));
    CountNone(c, Inner(r));
    CountConcat(c, Head(r) + "{" + Inner(r), "}");
    CountConcat(c, Head(r) + "{", Inner(r));
    CountConcat(c, Head(r), "{");
    assert Count(c, "{") + Count(c, "}") == 1;
  }

  datatype Piece = Piece(name: string, arg: string, data: string)

  ghost predicate Cut(ps: seq<Piece>, rs: seq<Raw>) {
    |ps| <= |rs| && forall i | 0 <= i < |ps| :: rs[i].Section? && ps[i] == Piece(rs[i].name, rs[i].arg, Data(rs[i]))
  }

  lemma TextsStep(rs: seq<Raw>, i: nat)
    requires i < |rs|
    ensures Texts(rs[i..]) == Text(rs[i]) + Texts(rs[i + 1..])
  {
    assert rs[i..][0] == rs[i] && rs[i..][1..] == rs[i + 1..];
  }

  lemma TouchedBack(b: seq<char>, p: nat, r: Raw, c: char)
    requires r.Section? && Spells(b, p, Text(r)) && p + |Text(r)| < |b|
    ensures var y := p + |Text(r)|; var b' := b[y := c];
      Spells(b', p, Text(r)) && Touched(b', p, r)[y := b[y]] == Touched(b, p, r)
  {
    SpellsBefore(b, p, Text(r), p + |Text(r)|, c);
    TextLength(r);
  }

  lemma TextLength(r: Raw)
    requires r.Section?
    ensures |Text(r)| == |r.name| + 4 + |r.arg| + |Inner(r)|
  {
  }

  /** The advance computed from the pieces is the length of the section exactly when nothing was left uncopied. */
  lemma AdvanceRight(r: Raw)
    requires r.Section?
    ensures |r.name| + 4 + |r.arg| + |Data(r)| == |Text(r)| <==> !Lax(r)
  {
  }

  /** What the reader still sees of the section before the `i`-th: all but the first character of a text it left
      uncopied, and the closing brace. */
  ghost function Residue(rs: seq<Raw>, i: nat): string
    requires i <= |rs|
  {
    if i > 0 && Lax(rs[i - 1]) then rs[i - 1].body.text[1..] + "}" else ""
  }

  /** The section is changed nowhere behind the point that the reader goes on from. */
  lemma Onward(b: seq<char>, p: nat, rs: seq<Raw>, i: nat, q: nat)
    requires i < |rs| && rs[i].Section? && Spells(b, p, Texts(rs[i..]))
    requires q == p + |rs[i].name| + 4 + |rs[i].arg| + |Data(rs[i])|
    ensures Spells(b, p, Text(rs[i])) && Spells(Touched(b, p, rs[i]), q, Residue(rs, i + 1) + Texts(rs[i + 1..]))
    ensures q + |Residue(rs, i + 1)| + |Texts(rs[i + 1..])| == p + |Texts(rs[i..])|
  {
    hide Texts, Text, Head, Inner, Spells, Touched, Residue, Lax, Data;
    TextsStep(rs, i);
    var a := ResidueParts(rs, i);
    SpellsOn(b, p, a, Residue(rs, i + 1), Texts(rs[i + 1..]));
    TouchedBehind(b, p, rs[i], q);
    SpellsBehind(b, Touched(b, p, rs[i]), q, Residue(rs, i + 1) + Texts(rs[i + 1..]));
  }

  lemma SpellsOn(b: seq<char>, p: nat, a: string, c: string, d: string)
    requires Spells(b, p, (a + c) + d)
    ensures Spells(b, p, a + c) && Spells(b, p + |a|, c + d) && p + |a| + |c| + |d| <= |b|
  {
    SpellsParts(b, p, a + c, d);
    Regroup(a, c, d);
    SpellsParts(b, p, a, c + d);
  }

  lemma Regroup<T>(a: seq<T>, b: seq<T>, c: seq<T>)
    ensures (a + b) + c == a + (b + c)
  {
  }

  /** The part of a section that the advance takes into account. */
  lemma ResidueParts(rs: seq<Raw>, i: nat) returns (a: string)
    requires i < |rs| && rs[i].Section?
    ensures Text(rs[i]) == a + Residue(rs, i + 1) && |a| == |rs[i].name| + 4 + |rs[i].arg| + |Data(rs[i])|
  {
    var r := rs[i];
    TextLength(r);
    AdvanceRight(r);
    if !Lax(r) {
      a := Text(r);
      assert Residue(rs, i + 1) == "";
    } else {
      var t, h := r.body.text, Head(r) + "{";
      a := h + t[..1];
      assert Text(r) == (h + t) + "}" && |h| == |r.name| + |r.arg| + 3 && Data(r) == "";
      assert Residue(rs, i + 1) == t[1..] + "}";
      hide Text, Head, Inner, Residue, Lax, Data;
      assert t == t[..1] + t[1..];
      Regroup(h, t[..1], t[1..]);
      Regroup(h + t[..1], t[1..], "}");
    }
  }

  lemma TouchedBehind(b: seq<char>, p: nat, r: Raw, q: nat)
    requires r.Section? && Spells(b, p, Text(r)) && p + |r.name| + |r.arg| + 4 <= q <= |b|
    ensures |Touched(b, p, r)| == |b| && Touched(b, p, r)[q..] == b[q..]
  {
  }

  lemma SpellsBehind(b: seq<char>, b': seq<char>, q: nat, w: string)
    requires Spells(b, q, w) && |b| == |b'| && q <= |b| && b[q..] == b'[q..]
    ensures Spells(b', q, w)
  {
    assert b[q..][..|w|] == b[q..q + |w|] && b'[q..][..|w|] == b'[q..q + |w|];
  }

  lemma SpellsBefore(b: seq<char>, p: nat, w: string, k: nat, d: char)
    requires Spells(b, p, w) && p + |w| <= k < |b|
    ensures Spells(b[k := d], p, w)
  {
    assert b[k := d][p..p + |w|] == b[p..p + |w|];
  }

  /** The chunk `w` that ends with the next closing brace, and what stands before the next opening one.  The chunk
      passes the checks exactly when the reader is at the start of a section. */
  lemma NextChunk(b: seq<char>, p: nat, rs: seq<Raw>, i: nat) returns (w: string, far: string)
    requires AllFit(rs) && i < |rs| && Spells(b, p, Residue(rs, i) + Texts(rs[i..]))
    requires p + |Residue(rs, i)| + |Texts(rs[i..])| < |b|
    ensures Spells(b, p, w + "}") && Without(w, '}') && Without(w, NUL) && p + |w| + 1 < |b|
    ensures Spells(b[p + |w| + 1 := NUL], p, far + "{") && Without(far, '{')
    ensures Passes(w + "}", far) <==> Residue(rs, i) == "" && rs[i].Section?
    ensures Residue(rs, i) == "" ==> Text(rs[i]) == w + "}" && Spells(b, p, Texts(rs[i..]))
  {
    var r, rest := rs[i], Texts(rs[i + 1..]);
    assert Fit(r);
    TextsStep(rs, i);
    if Residue(rs, i) == "" {
      w, far := Head(r) + "{" + Inner(r), Head(r);
      assert "" + Texts(rs[i..]) == Texts(rs[i..]);
      SpellsParts(b, p, Text(r), rest);
      HeadLayout(b, p, r);
      TextPlain(r);
      Verdict(r);
      SpellsBefore(b, p, far + "{", p + |w| + 1, NUL);
    } else {
      w, far := StrayChunk(b, p, rs, i);
    }
  }

  lemma StrayChunk(b: seq<char>, p: nat, rs: seq<Raw>, i: nat) returns (w: string, far: string)
    requires AllFit(rs) && i < |rs| && Spells(b, p, Residue(rs, i) + Texts(rs[i..])) && Residue(rs, i) != ""
    requires p + |Residue(rs, i)| + |Texts(rs[i..])| < |b|
    ensures Spells(b, p, w + "}") && Without(w, '}') && Without(w, NUL) && p + |w| + 1 < |b|
    ensures Spells(b[p + |w| + 1 := NUL], p, far + "{") && Without(far, '{') && !Passes(w + "}", far)
  {
    ResidueShape(rs, i);
    w := rs[i - 1].body.text[1..];
    var h, rest := NextBrace(rs, i);
    hide Texts, Text, Head, Inner, Fit, Spells, AllFit;
    far := StrayFar(b, p, w + "}", h, rest);
    CountNone('(', w + "}");
  }

  lemma FitAt(rs: seq<Raw>, i: nat)
    requires AllFit(rs) && i < |rs|
    ensures Fit(rs[i])
  {
  }

  lemma ResidueShape(rs: seq<Raw>, i: nat)
    requires AllFit(rs) && i <= |rs|
    ensures Residue(rs, i) != "" <==> i > 0 && Lax(rs[i - 1])
    ensures Residue(rs, i) != "" ==> var w := rs[i - 1].body.text[1..];
      Residue(rs, i) == w + "}" && Word(w)
  {
    if i > 0 && Lax(rs[i - 1]) {
      assert Fit(rs[i - 1]);
    }
  }

  /** The next opening brace that is not the first character. */
  lemma NextBrace(rs: seq<Raw>, i: nat) returns (h: string, rest: string)
    requires AllFit(rs) && 0 < i < |rs| && Lax(rs[i - 1])
    ensures Texts(rs[i..]) == (h + "{") + rest && h != "" && Without(h[1..], '{')
  {
    var r, more := rs[i], Texts(rs[i + 1..]);
    TextPlain(r);
    TextsStep(rs, i);
    assert Head(r) == "" ==> i + 1 < |rs| && Fit(rs[i + 1]);
    hide AllFit, Lax, Texts, Text, Head, Inner, Fit;
    if Head(r) != "" {
      h, rest := Head(r), (Inner(r) + "}") + more;
      Regroup(Head(r) + "{", Inner(r) + "}", more);
    } else {
      var next, last := rs[i + 1], Texts(rs[i + 2..]);
      TextPlain(next);
      TextsStep(rs, i + 1);
      h, rest := "{" + (Inner(r) + "}" + Head(next)), (Inner(next) + "}") + last;
      SecondBrace(Inner(r), Head(next), Inner(next), last);
    }
  }

  lemma SecondBrace(a: string, b: string, c: string, d: string)
    requires Plain(a) && Plain(b)
    ensures var h := "{" + (a + "}" + b);
      Without(h[1..], '{') && (("" + "{") + (a + "}")) + (((b + "{") + (c + "}")) + d) == (h + "{") + ((c + "}") + d)
  {
    Regroup(b + "{", c + "}", d);
    Regroup("{" + (a + "}"), b + "{", (c + "}") + d);
    Regroup("{" + (a + "}"), b, "{");
    Regroup("{", a + "}", b);
    assert ("{" + (a + "}" + b))[1..] == a + "}" + b;
  }

  lemma StrayFar(b: seq<char>, p: nat, chunk: string, h: string, rest: string) returns (far: string)
    requires Spells(b, p, chunk + ((h + "{") + rest)) && h != "" && Without(h[1..], '{') && Without(chunk, '{')
    ensures p + |chunk| < |b| && Spells(b[p + |chunk| := NUL], p, far + "{") && Without(far, '{')
    ensures Spells(b, p, chunk)
  {
    SpellsParts(b, p, chunk, (h + "{") + rest);
    SpellsParts(b, p + |chunk|, h + "{", rest);
    far := (chunk + [NUL]) + h[1..];
    var b' := b[p + |chunk| := NUL];
    assert b'[p..p + |chunk|] == chunk;
    assert b'[p + |chunk| + 1..p + |chunk| + |h| + 1] == (h + "{")[1..];
    assert far + "{" == (chunk + [NUL]) + (h + "{")[1..];
  }

  /** The first pass: the text is cut into sections. */
  method CutSections(buf: array<char>, count: nat, ghost rs: seq<Raw>) returns (ok: bool, ps: seq<Piece>)
    requires AllFit(rs) && count == |rs| && Spells(buf[..], 0, Texts(rs)) && |Texts(rs)| < buf.Length
    modifies buf
    ensures ok <==> AllSections(rs) && !Stuck(rs)
    ensures ok ==> |ps| == |rs| && Cut(ps, rs)
  {
    hide Texts, Text, Fit, Inner, Head, Data, Spells, Lax, AllFit, Passes, Without;
    ps := [];
    var fbuf: nat, ss := 0, count;
    assert rs[0..] == rs && Residue(rs, 0) + Texts(rs) == Texts(rs);
    while ss != 0
      invariant |ps| + ss == |rs| && Cut(ps, rs) && forall j | 0 <= j < |ps| - 1 :: !Lax(rs[j])
      invariant Spells(buf[..], fbuf, Residue(rs, |ps|) + Texts(rs[|ps|..]))
      invariant fbuf + |Residue(rs, |ps|)| + |Texts(rs[|ps|..])| < buf.Length
    {
      ghost var i := |ps|;
      ghost var b := buf[..];
      ghost var w, far := NextChunk(b, fbuf, rs, i);
      ResidueShape(rs, i);
      assert rs[i] in rs && Fit(rs[i]) by { FitAt(rs, i); }
      var good, name, arg, data := ReadSection(buf, fbuf, w, far, rs[i]);
      if !good {
        return false, ps;
      }
      Onward(b, fbuf, rs, i, fbuf + |name| + 4 + |arg| + |data|);
      fbuf := fbuf + |name| + 4 + |arg| + |data|;
      ps := ps + [Piece(name, arg, data)];
      ss := ss - 1;
    }
    ok := true;
  }

  /** The second pass: the lines of one section. */
  method Interpret(p: Piece, ghost r: Raw) returns (e: Entry)
    requires Fit(r) && r.Section? && p == Piece(r.name, r.arg, Data(r))
    ensures e == Meaning(r)
  {
    InnerWord(r);
    e := Entry(p.name, if p.arg == "" then "ERR" else p.arg, Unset);
    if p.data != "" {
      var sl := CountLines(p.data);
      var d := ScanExpr(p.data, sl);
      if d != 0 {
        e := e.(lines := Broken);
      } else {
        var vars := ReadVars(p.data, sl, r.body.vars, r.body.tail);
        e := e.(lines := Table(vars));
      }
    }
  }

  method CountLines(data: string) returns (l: nat)
    requires Without(data, '}') && Without(data, NUL)
    ensures l == Count(';', data)
  {
    var u := 0;
    l := 0;
    assert data[0..] == data;
    while u < |data|
      invariant u <= |data| && l + Count(';', data[u..]) == Count(';', data)
    {
      assert data[u..][1..] == data[u + 1..];
      if data[u] == ';' {
        l := l + 1;
      }
      u := u + 1;
    }
  }

  /** `read_syn_tree`. */
  method ReadSynTree(buffer: string, ghost rs: seq<Raw>) returns (res: Result)
    requires Terminated(buffer)
    requires Count('{', Strip(buffer)) == Count('}', Strip(buffer)) ==> Strip(buffer) == Texts(rs) && AllFit(rs)
    ensures res == Outcome(Strip(buffer), rs)
    ensures res.Read? ==> forall e | e in res.entries :: DenseEntry(e)
  {
    hide Strip, Texts, Fit, Count, Inner, Terminated, Dense, DenseEntry;
    StripNothing();
    ghost var core := Strip(buffer);
    if Count('{', core) == Count('}', core) {
      TextsCount(rs);
    }
    if |buffer| == 0 {
      return Failed;
    }
    var buf, f, ss, es := Preprocess(buffer);
    assert Dense(core);
    if ss != es {
      return Failed;
    }
    if ss == 0 || es == 0 {
      return Failed;
    }
    assert Spells(buf[..], 0, core);
    var ok, ps := CutSections(buf, ss, rs);
    if !ok {
      return Failed;
    }
    var tree: seq<Entry> := [];
    while |tree| < |ps|
      invariant |tree| <= |ps| && tree == Meanings(rs[..|tree|])
    {
      ghost var r := rs[|tree|];
      assert r in rs && Fit(r);
      var e := Interpret(ps[|tree|], r);
      MeaningsStep(rs, |tree|);
      tree := tree + [e];
    }
    assert rs[..|rs|] == rs;
    DenseMeanings(rs);
    return Read(tree);
  }

  ghost predicate DenseEntry(e: Entry) {
    && Dense(e.name) && Dense(e.arg)
    && (e.lines.Table? ==> forall v | v in e.lines.vars :: Dense(v.name) && Dense(v.value))
  }

  lemma DenseParts(a: string, b: string)
    requires Dense(a + b)
    ensures Dense(a) && Dense(b)
  {
    assert forall i | 0 <= i < |a| :: a[i] == (a + b)[i];
    assert forall i | 0 <= i < |b| :: b[i] == (a + b)[|a| + i];
  }

  lemma {:induction false} DenseVars(vs: seq<Var>)
    requires Dense(PairText(vs))
    ensures forall v | v in vs :: Dense(v.name) && Dense(v.value)
  {
    if vs != [] {
      var v := vs[0];
      DenseParts(v.name + "=" + v.value + ";", PairText(vs[1..]));
      DenseParts(v.name + "=" + v.value, ";");
      DenseParts(v.name + "=", v.value);
      DenseParts(v.name, "=");
      DenseVars(vs[1..]);
    }
  }

  lemma DenseMeaning(r: Raw)
    requires r.Section? && Dense(Text(r))
    ensures DenseEntry(Meaning(r))
  {
    DenseParts(Head(r) + "{" + Inner(r), "}");
    DenseParts(Head(r) + "{", Inner(r));
    DenseParts(Head(r), "{");
    DenseParts(r.name + "(" + r.arg, ")");
    DenseParts(r.name + "(", r.arg);
    DenseParts(r.name, "(");
    if r.body.Pairs? {
      DenseParts(PairText(r.body.vars), r.body.tail);
      DenseVars(r.body.vars);
    }
  }

  lemma {:induction false} DenseMeanings(rs: seq<Raw>)
    requires AllSections(rs) && Dense(Texts(rs))
    ensures forall e | e in Meanings(rs) :: DenseEntry(e)
  {
    if rs != [] {
      DenseParts(Text(rs[0]), Texts(rs[1..]));
      DenseMeaning(rs[0]);
      DenseMeanings(rs[1..]);
    }
  }

  lemma {:induction false} MeaningsStep(rs: seq<Raw>, i: nat)
    requires i < |rs| && AllSections(rs)
    ensures Meanings(rs[..i + 1]) == Meanings(rs[..i]) + [Meaning(rs[i])]
  {
    if i == 0 {
      assert rs[..1][1..] == [];
    } else {
      MeaningsStep(rs[1..], i - 1);
      assert rs[1..][..i] == rs[..i + 1][1..] && rs[1..][..i - 1] == rs[..i][1..];
    }
  }

  // ----- printing and reading back

  datatype Conf = Conf(name: string, arg: string, vars: seq<Var>)

  /** The sections that can be written down: names and values are free of delimiters. */
  ghost predicate WellFormed(c: Conf) {
    && Word(c.name) && Word(c.arg) && Dense(c.name) && Dense(c.arg) && |c.name| + |c.arg| > 0
    && forall v | v in c.vars :: Item(v.name) && Item(v.value) && Dense(v.name) && Dense(v.value)
  }

  ghost function Written(c: Conf): Raw {
    Section(c.name, c.arg, if c.vars == [] then Bare("") else Pairs(c.vars, ""))
  }

  ghost function Raws(cs: seq<Conf>): seq<Raw> {
    if cs == [] then [] else [Written(cs[0])] + Raws(cs[1..])
  }

  ghost function Print(cs: seq<Conf>): string {
    Texts(Raws(cs))
  }

  /** What is read back for a section: its name, argument and variables in order, except that no argument reads `ERR`
      and no variables leave their field as it was. */
  ghost function Stored(c: Conf): Entry {
    Entry(c.name, if c.arg == "" then "ERR" else c.arg, if c.vars == [] then Unset else Table(c.vars))
  }

  ghost function AllStored(cs: seq<Conf>): seq<Entry> {
    if cs == [] then [] else [Stored(cs[0])] + AllStored(cs[1..])
  }

  ghost function AsWritten(cs: seq<Conf>): seq<Entry> {
    if cs == [] then [] else [Entry(cs[0].name, cs[0].arg, Table(cs[0].vars))] + AsWritten(cs[1..])
  }

  ghost predicate Complete(cs: seq<Conf>) {
    forall c | c in cs :: c.arg != "" && c.vars != []
  }

  /** Nothing is lost exactly when every section has an argument and a variable; `ERR` itself survives. */
  lemma {:induction false} NothingLost(cs: seq<Conf>)
    ensures AllStored(cs) == AsWritten(cs) <==> Complete(cs)
  {
    if cs != [] {
      NothingLost(cs[1..]);
      var a, b := AllStored(cs), AsWritten(cs);
      assert a == b <==> a[0] == b[0] && a[1..] == b[1..] by {
        assert a == [a[0]] + a[1..] && b == [b[0]] + b[1..];
      }
      assert forall c | c in cs :: c == cs[0] || c in cs[1..];
    }
  }

  lemma {:induction false} DensePairs(vs: seq<Var>)
    requires forall v | v in vs :: Dense(v.name) && Dense(v.value)
    ensures Dense(PairText(vs))
  {
    if vs != [] {
      DensePairs(vs[1..]);
    }
  }

  lemma RawFit(c: Conf)
    requires WellFormed(c)
    ensures var r := Written(c);
      r.Section? && Fit(r) && !Lax(r) && Head(r) != "" && Dense(Text(r)) && Meaning(r) == Stored(c)
  {
    DensePairs(c.vars);
    DenseJoin(c.name, "(", c.arg);
    DenseJoin(c.name + "(" + c.arg, "){", PairText(c.vars));
    assert Inner(Written(c)) == PairText(c.vars);
    assert Text(Written(c)) == (c.name + "(" + c.arg) + "){" + PairText(c.vars) + "}";
  }

  lemma DenseJoin(a: string, m: string, b: string)
    requires Dense(a) && Dense(b) && Dense(m)
    ensures Dense(a + m + b)
  {
  }

  lemma {:induction false} PrintFit(cs: seq<Conf>)
    requires forall c | c in cs :: WellFormed(c)
    ensures AllFit(Raws(cs)) && AllSections(Raws(cs)) && !Stuck(Raws(cs)) && Dense(Print(cs))
    ensures |Raws(cs)| == |cs| && Meanings(Raws(cs)) == AllStored(cs) && forall r | r in Raws(cs) :: !Lax(r)
  {
    hide WellFormed, Fit, Text, Meaning, Stored, Dense, Written, Lax;
    if cs == [] {
      DenseNothing();
    } else {
      var r := Written(cs[0]);
      RawFit(cs[0]);
      PrintFit(cs[1..]);
      assert Raws(cs) == [r] + Raws(cs[1..]) && Raws(cs)[1..] == Raws(cs[1..]);
      DenseNothing();
      DenseJoin(Text(r), "", Texts(Raws(cs[1..])));
      assert Text(r) + "" + Texts(Raws(cs[1..])) == Texts(Raws(cs));
    }
  }

  lemma DenseNothing()
    ensures Dense("")
  {
  }

  /** However a list of sections is spread over lines and commented, reading it gives it back. */
  lemma RoundTrip(cs: seq<Conf>, gaps: seq<seq<Gap>>)
    requires forall c | c in cs :: WellFormed(c)
    requires |gaps| == |Print(cs)| + 1
    requires forall gs, g | gs in gaps && g in gs ::
      match g
      case Blank(c) => c as int in {9, 10, 11, 12, 13, 32}
      case Comment(text) => '\n' !in text
    ensures var text := Weave(Print(cs), gaps);
      Terminated(text) && Strip(text) == Texts(Raws(cs)) && AllFit(Raws(cs))
        && Outcome(Strip(text), Raws(cs)) == if cs == [] then Failed else Read(AllStored(cs))
  {
    PrintFit(cs);
    StripWeave(Print(cs), gaps);
    TextsCount(Raws(cs));
  }

  /** The reader itself, on such a text: it gives back what was written exactly when every section has an argument and a
      variable. */
  method ReadBack(text: string, ghost cs: seq<Conf>, ghost gaps: seq<seq<Gap>>) returns (res: Result)
    requires forall c | c in cs :: WellFormed(c)
    requires |gaps| == |Print(cs)| + 1
    requires forall gs, g | gs in gaps && g in gs ::
      match g
      case Blank(c) => c as int in {9, 10, 11, 12, 13, 32}
      case Comment(text) => '\n' !in text
    requires text == Weave(Print(cs), gaps)
    ensures res == if cs == [] then Failed else Read(AllStored(cs))
    ensures res == Read(AsWritten(cs)) <==> cs != [] && Complete(cs)
  {
    RoundTrip(cs, gaps);
    NothingLost(cs);
    res := ReadSynTree(text, Raws(cs));
  }
}
