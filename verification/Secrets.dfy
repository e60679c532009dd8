/** Resolution of `{{secret:KEY}}` references in texts and nested values (tftpos/secrets.py). */
module Secrets {
  import opened Common

  // ---------- The pattern ----------

  const PREFIX := "{{secret:"
  const SUFFIX := "}}"

  predicate KeyChar(c: char) {
    'A' <= c <= 'Z' || 'a' <= c <= 'z' || '0' <= c <= '9' || c == '_'
  }

  predicate IsKey(key: string) {
    key != "" && forall i | 0 <= i < |key| :: KeyChar(key[i])
  }

  /** How a reference is written. */
  function Spell(key: string): string {
    PREFIX + key + SUFFIX
  }

  /** The longest run of key characters at the start. */
  function KeyRun(s: string): (n: nat)
    ensures n <= |s|
  {
    if s == "" || !KeyChar(s[0]) then 0 else 1 + KeyRun(s[1..])
  }

  lemma {:induction false} KeyRunIsLongest(s: string)
    ensures forall i | 0 <= i < KeyRun(s) :: KeyChar(s[i])
    ensures KeyRun(s) < |s| ==> !KeyChar(s[KeyRun(s)])
  {
    if s != "" && KeyChar(s[0]) {
      KeyRunIsLongest(s[1..]);
    }
  }

  /** The key of the reference at the start of the text, if the pattern matches there. */
  function KeyAtStart(s: string): Option<string> {
    if PREFIX <= s then
      var rest := s[|PREFIX|..];
      var n := KeyRun(rest);
      if n > 0 && SUFFIX <= rest[n..] then Some(rest[..n]) else None
    else None
  }

  lemma KeyAtStartIsSpelled(s: string, key: string)
    requires KeyAtStart(s) == Some(key)
    ensures IsKey(key) && Spell(key) <= s
  {
    var rest := s[|PREFIX|..];
    KeyRunIsLongest(rest);
    assert rest[..|key|] == key && rest[|key|..][..2] == SUFFIX;
    assert rest == key + rest[|key|..];
    assert rest[|key|..] == SUFFIX + rest[|key|..][2..];
    assert s == PREFIX + rest;
    assert s == Spell(key) + rest[|key|..][2..];
  }

  lemma KeyRunStops(key: string, more: string)
    requires IsKey(key) && more != "" && !KeyChar(more[0])
    ensures KeyRun(key + more) == |key|
  {
    var t, n := key + more, KeyRun(key + more);
    KeyRunIsLongest(t);
    assert t[|key|] == more[0];
    assert forall i | 0 <= i < |key| :: t[i] == key[i];
  }

  lemma SpelledIsKeyAtStart(key: string, more: string)
    requires IsKey(key)
    ensures KeyAtStart(Spell(key) + more) == Some(key)
  {
    var s, tail := Spell(key) + more, SUFFIX + more;
    assert s == PREFIX + (key + tail);
    var rest := s[|PREFIX|..];
    assert rest == key + tail;
    KeyRunStops(key, tail);
    assert rest[..|key|] == key && rest[|key|..] == tail;
  }

  /** The pattern matches exactly the texts that start with a written reference, and finds its key. */
  lemma KeyAtStartIff(s: string, key: string)
    ensures KeyAtStart(s) == Some(key) <==> IsKey(key) && Spell(key) <= s
    ensures Spell(key) == "{{secret:" + key + "}}"
    ensures IsKey(key)
            <==> key != "" && forall i | 0 <= i < |key| ::
                   'A' <= key[i] <= 'Z' || 'a' <= key[i] <= 'z' || '0' <= key[i] <= '9' || key[i] == '_'
  {
    if KeyAtStart(s) == Some(key) {
      KeyAtStartIsSpelled(s, key);
    }
    if IsKey(key) && Spell(key) <= s {
      assert s == Spell(key) + s[|Spell(key)|..];
      SpelledIsKeyAtStart(key, s[|Spell(key)|..]);
    }
  }

  // ---------- Splitting a text ----------

  datatype Token = Char(c: char) | Ref(key: string)

  function SpellToken(t: Token): string {
    match t
    case Char(c) => [c]
    case Ref(key) => Spell(key)
  }

  function SpellAll(ts: seq<Token>): string {
    if ts == [] then "" else SpellToken(ts[0]) + SpellAll(ts[1..])
  }

  lemma SpellCons(t: Token, ts: seq<Token>)
    ensures SpellAll([t] + ts) == SpellToken(t) + SpellAll(ts)
  {
    assert ([t] + ts)[1..] == ts;
  }

  /** How the first token of a text is found. */
  type Lexer = string -> Token

  ghost predicate Lexes(first: Lexer) {
    forall s: string | s != "" :: SpellToken(first(s)) <= s && SpellToken(first(s)) != ""
  }

  /** Left to right, never looking back. */
  function Split(first: Lexer, s: string): seq<Token>
    decreases |s|
  {
    if s == "" then []
    else
      var n := |SpellToken(first(s))|;
      [first(s)] + (if 1 <= n <= |s| then Split(first, s[n..]) else [])
  }

  lemma SplitStep(first: Lexer, s: string) returns (rest: string)
    requires Lexes(first) && s != ""
    ensures Split(first, s) == [first(s)] + Split(first, rest)
    ensures |rest| < |s| && s == SpellToken(first(s)) + rest
  {
    rest := s[|SpellToken(first(s))|..];
  }

  lemma SpellTake(t: Token, more: seq<Token>, x: nat)
    requires 0 < x <= |more| + 1
    ensures ([t] + more)[x..] == more[x - 1..]
    ensures SpellAll(([t] + more)[..x]) == SpellToken(t) + SpellAll(more[..x - 1])
  {
    assert ([t] + more)[..x] == [t] + more[..x - 1];
    SpellCons(t, more[..x - 1]);
  }

  /** A split loses nothing, and from token number x on it is the split of the rest of the text. */
  lemma {:induction false} SplitAt(first: Lexer, s: string, x: nat) returns (rest: string)
    requires Lexes(first) && x <= |Split(first, s)|
    ensures s == SpellAll(Split(first, s)[..x]) + rest
    ensures Split(first, s)[x..] == Split(first, rest)
    decreases x
  {
    if x == 0 {
      rest := s;
      assert SpellAll(Split(first, s)[..0]) == "";
    } else {
      var after := SplitStep(first, s);
      var t, more := first(s), Split(first, after);
      rest := SplitAt(first, after, x - 1);
      SpellTake(t, more, x);
      ConcatAssociates(SpellToken(t), SpellAll(more[..x - 1]), rest);
    }
  }

  /** A reference where the pattern matches, otherwise one character. */
  function FirstToken(s: string): Token {
    match KeyAtStart(s)
    case Some(key) => Ref(key)
    case None => Char(if s == "" then ' ' else s[0])
  }

  function Tokens(s: string): seq<Token> {
    Split(FirstToken, s)
  }

  lemma FirstTokenLexes()
    ensures Lexes(FirstToken)
  {
    forall s: string | s != ""
      ensures SpellToken(FirstToken(s)) <= s && SpellToken(FirstToken(s)) != ""
    {
      if KeyAtStart(s).Some? {
        KeyAtStartIsSpelled(s, KeyAtStart(s).value);
      }
    }
  }

  /** The split loses nothing. */
  lemma TokensAreLossless(s: string)
    ensures SpellAll(Tokens(s)) == s
  {
    FirstTokenLexes();
    var ts := Split(FirstToken, s);
    var rest := SplitAt(FirstToken, s, |ts|);
    assert ts[..|ts|] == ts && Split(FirstToken, rest) == [];
  }

  lemma {:induction false} SpellConcat(a: seq<Token>, b: seq<Token>)
    ensures SpellAll(a + b) == SpellAll(a) + SpellAll(b)
  {
    if a == [] {
      assert a + b == b;
    } else {
      assert (a + b)[1..] == a[1..] + b;
      SpellConcat(a[1..], b);
    }
  }

  ghost predicate AllChars(ts: seq<Token>) {
    forall i | 0 <= i < |ts| :: ts[i].Char?
  }

  lemma {:induction false} CharsSpell(ts: seq<Token>)
    requires AllChars(ts)
    ensures |SpellAll(ts)| == |ts|
    ensures forall i | 0 <= i < |ts| :: SpellAll(ts)[i] == ts[i].c
  {
    if ts != [] {
      CharsSpell(ts[1..]);
    }
  }

  /** A stretch of literal characters does not start with a complete reference. */
  lemma LiteralsStartNoReference(s: string, x: nat, y: nat)
    requires x <= y <= |Tokens(s)| && AllChars(Tokens(s)[x..y])
    ensures KeyAtStart(SpellAll(Tokens(s)[x..y])).None?
  {
    FirstTokenLexes();
    var ts, run := Tokens(s), Tokens(s)[x..y];
    var rest := SplitAt(FirstToken, s, x);
    LiteralRun(ts[x..], run, rest, y - x);
  }

  lemma LiteralRun(ts: seq<Token>, run: seq<Token>, rest: string, n: nat)
    requires ts == Tokens(rest) && n <= |ts| && run == ts[..n] && AllChars(run)
    ensures KeyAtStart(SpellAll(run)).None?
  {
    TokensAreLossless(rest);
    assert ts == run + ts[n..];
    SpellConcat(run, ts[n..]);
    assert run != [] ==> ts[0] == run[0];
    if KeyAtStart(SpellAll(run)).Some? {
      RefAtStart(SpellAll(run), rest, KeyAtStart(SpellAll(run)).value);
    }
  }

  /** A text that extends one which starts with a reference has that reference as its first token. */
  lemma RefAtStart(text: string, s: string, key: string)
    requires KeyAtStart(text) == Some(key) && text <= s
    ensures Tokens(s) != [] && Tokens(s)[0] == Ref(key) && text != ""
  {
    KeyAtStartIff(text, key);
    assert Spell(key) <= s;
    KeyAtStartIff(s, key);
  }

  /** Hence it contains none. */
  lemma LiteralsHoldNoReference(s: string, x: nat, y: nat, text: string, i: nat)
    requires x <= y <= |Tokens(s)| && AllChars(Tokens(s)[x..y])
    requires text == SpellAll(Tokens(s)[x..y]) && i <= |text|
    ensures KeyAtStart(text[i..]).None?
  {
    var run := Tokens(s)[x..y];
    CharsSpell(run);
    SpellOfRest(run, i);
    assert run[i..] == Tokens(s)[x + i..y];
    LiteralsStartNoReference(s, x + i, y);
  }

  lemma SpellOfRest(run: seq<Token>, i: nat)
    requires AllChars(run) && i <= |run| == |SpellAll(run)|
    ensures SpellAll(run[i..]) == SpellAll(run)[i..]
  {
    CharsSpell(run);
    CharsSpell(run[i..]);
  }

  lemma SpellHasNoInnerStart(key: string, o: nat)
    requires IsKey(key) && 0 < o < |Spell(key)|
    ensures Spell(key)[o] != '{' || (o == 1 && Spell(key)[2] != '{')
  {
    var t := Spell(key);
    assert |PREFIX| == 9 && |t| == 9 + |key| + 2;
    assert forall i | 0 <= i < 9 :: t[i] == PREFIX[i];
    assert forall i | 0 <= i < |key| :: t[9 + i] == key[i];
    assert t[9 + |key|] == '}' && t[10 + |key|] == '}';
    if 9 <= o < 9 + |key| {
      assert t[o] == key[o - 9] && KeyChar(key[o - 9]);
    }
  }

  /** Two references in a text do not overlap. */
  lemma ReferencesAreDisjoint(s: string, key: string, o: nat, other: string)
    requires KeyAtStart(s) == Some(key) && 0 < o <= |s| && KeyAtStart(s[o..]) == Some(other)
    ensures o >= |Spell(key)|
  {
    KeyAtStartIff(s, key);
    KeyAtStartIff(s[o..], other);
    assert Spell(other)[0] == '{' && Spell(other)[1] == '{';
    assert s[o..][0] == Spell(other)[0] && s[o..][1] == Spell(other)[1];
    assert s[o] == '{' && s[o + 1] == '{';
    assert forall i | 0 <= i < |Spell(key)| :: s[i] == Spell(key)[i];
    if o < |Spell(key)| {
      SpellHasNoInnerStart(key, o);
    }
  }

  lemma FirstTokenEndsBefore(s: string, t: Token, pre: string, key: string, post: string)
    requires s == pre + (Spell(key) + post) && IsKey(key) && pre != ""
    requires t == FirstToken(s)
    ensures |SpellToken(t)| <= |pre|
  {
    assert s[|pre|..] == Spell(key) + post;
    SpelledIsKeyAtStart(key, post);
    if t.Ref? {
      ReferencesAreDisjoint(s, t.key, |pre|, key);
    }
  }

  lemma SplitPrefix(s: string, head: string, after: string, pre: string, tail: string)
    requires s == head + after == pre + tail && |head| <= |pre|
    ensures pre == head + pre[|head|..] && after == pre[|head|..] + tail
  {
    assert forall i | 0 <= i < |head| :: head[i] == s[i] == pre[i];
    assert after == s[|head|..];
  }

  /** The first token of a text does not change when a reference is put behind the text. */
  lemma FirstTokenIsLocal(s: string, pre: string, key: string, post: string)
    requires s == pre + (Spell(key) + post) && IsKey(key) && pre != ""
    ensures FirstToken(pre) == FirstToken(s)
  {
    FirstTokenEndsBefore(s, FirstToken(s), pre, key, post);
    assert pre <= s && s[0] == pre[0];
    if KeyAtStart(s).Some? {
      var k := KeyAtStart(s).value;
      KeyAtStartIff(s, k);
      assert Spell(k) == s[..|Spell(k)|] == pre[..|Spell(k)|];
      KeyAtStartIff(pre, k);
    } else if KeyAtStart(pre).Some? {
      var k := KeyAtStart(pre).value;
      KeyAtStartIff(pre, k);
      KeyAtStartIff(s, k);
    }
  }

  lemma {:induction false} SplitAroundReference(first: Lexer, s: string, pre: string, key: string, post: string)
    requires first == FirstToken && Lexes(first)
    requires s == pre + (Spell(key) + post) && IsKey(key)
    ensures Split(first, s) == Split(first, pre) + ([Ref(key)] + Split(first, post))
    decreases |pre|
  {
    var after := SplitStep(first, s);
    if pre == "" {
      assert s == Spell(key) + post;
      SpelledIsKeyAtStart(key, post);
      assert after == post;
    } else {
      FirstTokenIsLocal(s, pre, key, post);
      var t := first(s);
      var pre' := SplitStep(first, pre);
      FirstTokenEndsBefore(s, t, pre, key, post);
      SplitPrefix(s, SpellToken(t), after, pre, Spell(key) + post);
      assert pre' == pre[|SpellToken(t)|..];
      SplitAroundReference(first, after, pre', key, post);
      ConcatAssociates([t], Split(first, pre'), [Ref(key)] + Split(first, post));
    }
  }

  /** Every reference in a text, whatever surrounds it, is a token of its own, and the text before it and
      the text after it are split as if they stood alone. */
  lemma EveryReferenceIsToken(pre: string, key: string, post: string)
    requires IsKey(key)
    ensures Tokens(pre + (Spell(key) + post)) == Tokens(pre) + ([Ref(key)] + Tokens(post))
  {
    FirstTokenLexes();
    SplitAroundReference(FirstToken, pre + (Spell(key) + post), pre, key, post);
  }

  // ---------- Resolving a text ----------

  /** A provider: the secret for a key, if there is one. */
  type Provider = string -> Option<string>

  datatype Missing = Missing(key: string, path: Path)

  datatype Step = Field(name: string) | Index(i: nat)

  type Path = seq<Step>

  function ResolveTokens(ts: seq<Token>, get: Provider, path: Path): Result<string, Missing> {
    if ts == [] then Ok("")
    else
      match ts[0]
      case Char(c) =>
        (match ResolveTokens(ts[1..], get, path) case Ok(rest) => Ok([c] + rest) case Err(e) => Err(e))
      case Ref(key) =>
        match get(key)
        case None => Err(Missing(key, path))
        case Some(secret) =>
          match ResolveTokens(ts[1..], get, path) case Ok(rest) => Ok(secret + rest) case Err(e) => Err(e)
  }

  function ResolveString(s: string, get: Provider, path: Path): Result<string, Missing> {
    ResolveTokens(Tokens(s), get, path)
  }

  /** The references of a text in order, each with the path it is found at. */
  function RefsOf(ts: seq<Token>, path: Path): seq<Missing> {
    if ts == [] then [] else (if ts[0].Ref? then [Missing(ts[0].key, path)] else []) + RefsOf(ts[1..], path)
  }

  /** The first reference whose key the provider does not know. */
  function FirstMissing(refs: seq<Missing>, get: Provider): Option<Missing> {
    if refs == [] then None else if get(refs[0].key).None? then Some(refs[0]) else FirstMissing(refs[1..], get)
  }

  /** The text with every known secret in place of its reference. */
  function Rendered(ts: seq<Token>, get: Provider): string {
    if ts == [] then ""
    else (match ts[0] case Char(c) => [c] case Ref(key) => if get(key).Some? then get(key).value else "") + Rendered(ts[1..], get)
  }

  lemma {:induction false} ResolveTokensIff(ts: seq<Token>, get: Provider, path: Path)
    ensures ResolveTokens(ts, get, path)
            == match FirstMissing(RefsOf(ts, path), get) case None => Ok(Rendered(ts, get)) case Some(m) => Err(m)
  {
    if ts != [] {
      ResolveTokensIff(ts[1..], get, path);
      var rest := RefsOf(ts[1..], path);
      if ts[0].Ref? {
        var head := Missing(ts[0].key, path);
        assert ([head] + rest)[1..] == rest;
      } else {
        assert [] + rest == rest;
      }
    }
  }

  lemma {:induction false} RenderedConcat(a: seq<Token>, b: seq<Token>, get: Provider)
    ensures Rendered(a + b, get) == Rendered(a, get) + Rendered(b, get)
  {
    if a == [] {
      assert a + b == b;
    } else {
      assert (a + b)[1..] == a[1..] + b;
      RenderedConcat(a[1..], b, get);
    }
  }

  /** A known secret is inserted once and never looked at again, whatever it contains and whatever stands
      around the reference. */
  lemma SecretIsInsertedOnce(pre: string, key: string, post: string, get: Provider)
    requires IsKey(key) && get(key).Some?
    ensures Rendered(Tokens(pre + (Spell(key) + post)), get)
            == Rendered(Tokens(pre), get) + (get(key).value + Rendered(Tokens(post), get))
  {
    EveryReferenceIsToken(pre, key, post);
    RenderedConcat(Tokens(pre), [Ref(key)] + Tokens(post), get);
    assert ([Ref(key)] + Tokens(post))[1..] == Tokens(post);
  }

  /** The text holds no complete reference. */
  ghost predicate NoReference(s: string) {
    forall i | 0 <= i <= |s| :: KeyAtStart(s[i..]).None?
  }

  lemma {:induction false} PlainTokens(s: string)
    requires NoReference(s)
    ensures AllChars(Tokens(s))
  {
    if s != "" {
      FirstTokenLexes();
      var rest := SplitStep(FirstToken, s);
      assert s[0..] == s && KeyAtStart(s).None?;
      assert rest == s[1..];
      forall i | 0 <= i <= |rest|
        ensures KeyAtStart(rest[i..]).None?
      {
        assert rest[i..] == s[i + 1..];
      }
      PlainTokens(rest);
      assert Tokens(s) == [FirstToken(s)] + Tokens(rest);
    }
  }

  lemma {:induction false} CharsResolve(ts: seq<Token>, get: Provider, path: Path)
    requires AllChars(ts)
    ensures ResolveTokens(ts, get, path) == Ok(SpellAll(ts))
  {
    if ts != [] {
      CharsResolve(ts[1..], get, path);
    }
  }

  /** A text without references resolves to itself, whatever the provider knows. */
  lemma PlainTextIsKept(s: string, get: Provider, path: Path)
    requires forall i | 0 <= i <= |s| :: KeyAtStart(s[i..]).None?
    ensures ResolveString(s, get, path) == Ok(s)
  {
    PlainTokens(s);
    CharsResolve(Tokens(s), get, path);
    TokensAreLossless(s);
  }

  lemma {:induction false} ResolveTokensConcat(a: seq<Token>, b: seq<Token>, get: Provider, path: Path)
    ensures ResolveTokens(a + b, get, path)
            == match ResolveTokens(a, get, path)
               case Err(e) => Err(e)
               case Ok(x) => match ResolveTokens(b, get, path) case Err(e) => Err(e) case Ok(y) => Ok(x + y)
  {
    if a == [] {
      assert a + b == b;
      if ResolveTokens(b, get, path).Ok? {
        assert "" + ResolveTokens(b, get, path).value == ResolveTokens(b, get, path).value;
      }
    } else {
      assert (a + b)[1..] == a[1..] + b && (a + b)[0] == a[0];
      ResolveTokensConcat(a[1..], b, get, path);
      var x, y := ResolveTokens(a[1..], get, path), ResolveTokens(b, get, path);
      if x.Ok? && y.Ok? {
        var head := if a[0].Char? then [a[0].c] else if get(a[0].key).Some? then get(a[0].key).value else "";
        ConcatAssociates(head, x.value, y.value);
      }
    }
  }

  lemma ReferenceResolves(key: string, get: Provider, path: Path)
    ensures ResolveTokens([Ref(key)], get, path)
            == match get(key) case None => Err(Missing(key, path)) case Some(secret) => Ok(secret)
  {
    assert [Ref(key)][1..] == [];
    if get(key).Some? {
      assert get(key).value + "" == get(key).value;
    }
  }

  /** Around any reference: what comes before it is resolved by itself, then the reference, then what comes after
      it, and the first failure is the result. */
  lemma ResolveAroundReference(pre: string, key: string, post: string, get: Provider, path: Path)
    requires IsKey(key)
    ensures ResolveString(pre + ("{{secret:" + key + "}}" + post), get, path)
            == match ResolveString(pre, get, path)
               case Err(e) => Err(e)
               case Ok(before) =>
                 match get(key)
                 case None => Err(Missing(key, path))
                 case Some(secret) =>
                   match ResolveString(post, get, path)
                   case Err(e) => Err(e)
                   case Ok(after) => Ok(before + (secret + after))
  {
    EveryReferenceIsToken(pre, key, post);
    ResolveTokensConcat(Tokens(pre), [Ref(key)] + Tokens(post), get, path);
    ResolveTokensConcat([Ref(key)], Tokens(post), get, path);
    ReferenceResolves(key, get, path);
  }

  /** A reference between two texts without any is replaced by its secret, and the texts are kept. */
  lemma SecretBetweenPlainTexts(pre: string, key: string, post: string, get: Provider, path: Path)
    requires IsKey(key) && get(key).Some?
    requires forall i | 0 <= i <= |pre| :: KeyAtStart(pre[i..]).None?
    requires forall i | 0 <= i <= |post| :: KeyAtStart(post[i..]).None?
    ensures ResolveString(pre + ("{{secret:" + key + "}}" + post), get, path) == Ok(pre + (get(key).value + post))
  {
    PlainTextIsKept(pre, get, path);
    PlainTextIsKept(post, get, path);
    ResolveAroundReference(pre, key, post, get, path);
  }

  lemma {:induction false} FirstMissingIff(refs: seq<Missing>, get: Provider)
    ensures FirstMissing(refs, get).None? <==> forall r <- refs :: get(r.key).Some?
  {
    if refs != [] {
      FirstMissingIff(refs[1..], get);
    }
  }

  lemma {:induction false} FirstMissingConcat(a: seq<Missing>, b: seq<Missing>, get: Provider)
    ensures FirstMissing(a + b, get) == if FirstMissing(a, get).Some? then FirstMissing(a, get) else FirstMissing(b, get)
  {
    if a == [] {
      assert a + b == b;
    } else {
      assert (a + b)[1..] == a[1..] + b;
      FirstMissingConcat(a[1..], b, get);
    }
  }

  // ---------- Nested values ----------

  /** A profile value: text, dictionary in insertion order, list, or anything else. */
  datatype Value = Str(s: string) | Dict(items: seq<Member>) | List(elements: seq<Value>) | Other(id: int)

  datatype Member = Member(name: string, value: Value)

  function Resolve(v: Value, get: Provider, path: Path): Result<Value, Missing>
    decreases v, 0
  {
    match v
    case Str(s) => (match ResolveString(s, get, path) case Ok(t) => Ok(Str(t)) case Err(e) => Err(e))
    case Dict(items) => (match ResolveItems(items, get, path) case Ok(r) => Ok(Dict(r)) case Err(e) => Err(e))
    case List(elements) => (match ResolveElements(elements, 0, get, path) case Ok(r) => Ok(List(r)) case Err(e) => Err(e))
    case Other(_) => Ok(v)
  }

  function ResolveItems(items: seq<Member>, get: Provider, path: Path): (r: Result<seq<Member>, Missing>)
    decreases items
  {
    if items == [] then Ok([])
    else
      match Resolve(items[0].value, get, path + [Field(items[0].name)])
      case Err(e) => Err(e)
      case Ok(first) =>
        match ResolveItems(items[1..], get, path)
        case Err(e) => Err(e)
        case Ok(rest) => Ok([Member(items[0].name, first)] + rest)
  }

  /** The elements of a list, the first of which has index n. */
  function ResolveElements(elements: seq<Value>, n: nat, get: Provider, path: Path): Result<seq<Value>, Missing>
    decreases elements
  {
    if elements == [] then Ok([])
    else
      match Resolve(elements[0], get, path + [Index(n)])
      case Err(e) => Err(e)
      case Ok(first) =>
        match ResolveElements(elements[1..], n + 1, get, path)
        case Err(e) => Err(e)
        case Ok(rest) => Ok([first] + rest)
  }

  /** All references in a value, in document order. */
  function Refs(v: Value, path: Path): seq<Missing>
    decreases v, 0
  {
    match v
    case Str(s) => RefsOf(Tokens(s), path)
    case Dict(items) => ItemRefs(items, path)
    case List(elements) => ElementRefs(elements, 0, path)
    case Other(_) => []
  }

  function ItemRefs(items: seq<Member>, path: Path): seq<Missing>
    decreases items
  {
    if items == [] then [] else Refs(items[0].value, path + [Field(items[0].name)]) + ItemRefs(items[1..], path)
  }

  function ElementRefs(elements: seq<Value>, n: nat, path: Path): seq<Missing>
    decreases elements
  {
    if elements == [] then [] else Refs(elements[0], path + [Index(n)]) + ElementRefs(elements[1..], n + 1, path)
  }

  /** Resolution fails exactly when some referenced key is missing, and names the first one. */
  lemma {:induction false} ResolveFailsIffMissing(v: Value, get: Provider, path: Path)
    ensures match FirstMissing(Refs(v, path), get)
            case None => Resolve(v, get, path).Ok?
            case Some(m) => Resolve(v, get, path) == Err(m)
    decreases v, 0
  {
    match v {
      case Str(s) => ResolveTokensIff(Tokens(s), get, path);
      case Dict(items) => ItemsFailIffMissing(items, get, path);
      case List(elements) => ElementsFailIffMissing(elements, 0, get, path);
      case Other(_) =>
    }
  }

  lemma {:induction false} ItemsFailIffMissing(items: seq<Member>, get: Provider, path: Path)
    ensures match FirstMissing(ItemRefs(items, path), get)
            case None => ResolveItems(items, get, path).Ok?
            case Some(m) => ResolveItems(items, get, path) == Err(m)
    decreases items
  {
    if items != [] {
      var inner := path + [Field(items[0].name)];
      ResolveFailsIffMissing(items[0].value, get, inner);
      ItemsFailIffMissing(items[1..], get, path);
      FirstMissingConcat(Refs(items[0].value, inner), ItemRefs(items[1..], path), get);
    }
  }

  lemma {:induction false} ElementsFailIffMissing(elements: seq<Value>, n: nat, get: Provider, path: Path)
    ensures match FirstMissing(ElementRefs(elements, n, path), get)
            case None => ResolveElements(elements, n, get, path).Ok?
            case Some(m) => ResolveElements(elements, n, get, path) == Err(m)
    decreases elements
  {
    if elements != [] {
      var inner := path + [Index(n)];
      ResolveFailsIffMissing(elements[0], get, inner);
      ElementsFailIffMissing(elements[1..], n + 1, get, path);
      FirstMissingConcat(Refs(elements[0], inner), ElementRefs(elements[1..], n + 1, path), get);
    }
  }

  // ---------- What a resolved value holds at each path ----------

  function FieldPosition(items: seq<Member>, name: string): (p: Option<nat>)
    ensures p.Some? ==> p.value < |items|
  {
    if items == [] then None
    else if items[0].name == name then Some(0)
    else match FieldPosition(items[1..], name) case None => None case Some(p) => Some(p + 1)
  }

  /** The value at a path, if there is one. */
  function At(v: Value, p: Path): Option<Value>
    decreases |p|
  {
    if p == [] then Some(v)
    else
      match (v, p[0])
      case (Dict(items), Field(name)) =>
        (match FieldPosition(items, name) case None => None case Some(i) => At(items[i].value, p[1..]))
      case (List(elements), Index(i)) => if i < |elements| then At(elements[i], p[1..]) else None
      case _ => None
  }

  /** One node of a value and of its resolution: same kind, same keys or length, same non-text, and a text
      rendered. */
  ghost predicate NodeResolved(a: Option<Value>, b: Option<Value>, get: Provider) {
    match (a, b)
    case (None, None) => true
    case (Some(Str(s)), Some(Str(t))) => t == Rendered(Tokens(s), get)
    case (Some(Dict(items)), Some(Dict(items'))) => Names(items) == Names(items')
    case (Some(List(elements)), Some(List(elements'))) => |elements| == |elements'|
    case (Some(Other(x)), Some(Other(y))) => x == y
    case _ => false
  }

  function Names(items: seq<Member>): seq<string> {
    seq(|items|, i requires 0 <= i < |items| => items[i].name)
  }

  lemma {:induction false} ItemsResolved(items: seq<Member>, get: Provider, path: Path, i: nat)
    requires ResolveItems(items, get, path).Ok? && i < |items|
    ensures var r := ResolveItems(items, get, path).value;
            && |r| == |items| && Names(r) == Names(items)
            && Resolve(items[i].value, get, path + [Field(items[i].name)]) == Ok(r[i].value)
  {
    var r := ResolveItems(items, get, path).value;
    var rest := ResolveItems(items[1..], get, path).value;
    assert r[1..] == rest;
    if |items| > 1 {
      ItemsResolved(items[1..], get, path, if i > 0 then i - 1 else 0);
      assert forall j | 0 <= j < |rest| :: Names(rest)[j] == rest[j].name && Names(items[1..])[j] == items[j + 1].name;
    }
    assert forall j | 0 <= j < |r| :: r[j].name == items[j].name;
  }

  lemma {:induction false} ElementsResolved(elements: seq<Value>, n: nat, get: Provider, path: Path, i: nat)
    requires ResolveElements(elements, n, get, path).Ok? && i < |elements|
    ensures var r := ResolveElements(elements, n, get, path).value;
            |r| == |elements| && Resolve(elements[i], get, path + [Index(n + i)]) == Ok(r[i])
  {
    var tail, rest := elements[1..], ResolveElements(elements[1..], n + 1, get, path).value;
    if tail == [] {
      assert rest == [];
    } else if i == 0 {
      ElementsResolved(tail, n + 1, get, path, 0);
    } else {
      ElementsResolved(tail, n + 1, get, path, i - 1);
      assert n + 1 + (i - 1) == n + i;
    }
  }

  lemma {:induction false} SamePosition(items: seq<Member>, items': seq<Member>, name: string)
    requires Names(items) == Names(items')
    ensures FieldPosition(items, name) == FieldPosition(items', name)
  {
    assert |Names(items)| == |items| && |Names(items')| == |items'|;
    if items != [] {
      assert Names(items)[0] == items[0].name && Names(items')[0] == items'[0].name;
      assert Names(items[1..]) == Names(items)[1..] == Names(items')[1..] == Names(items'[1..]);
      SamePosition(items[1..], items'[1..], name);
    }
  }

  /** A resolved value has the same shape at every path, and each text in it is that text rendered. */
  lemma {:induction false} ResolvedAtEveryPath(v: Value, get: Provider, path: Path, p: Path)
    requires Resolve(v, get, path).Ok?
    ensures NodeResolved(At(v, p), At(Resolve(v, get, path).value, p), get)
    decreases |p|
  {
    var r := Resolve(v, get, path).value;
    match v {
      case Str(s) => ResolveTokensIff(Tokens(s), get, path);
      case Other(_) =>
      case Dict(items) =>
        if items != [] {
          ItemsResolved(items, get, path, 0);
        }
        if p != [] && p[0].Field? {
          SamePosition(items, r.items, p[0].name);
          var position := FieldPosition(items, p[0].name);
          if position.Some? {
            ItemsResolved(items, get, path, position.value);
            ResolvedAtEveryPath(items[position.value].value, get, path + [Field(items[position.value].name)], p[1..]);
          }
        }
      case List(elements) =>
        if elements != [] {
          ElementsResolved(elements, 0, get, path, 0);
        }
        if p != [] && p[0].Index? && p[0].i < |elements| {
          ElementsResolved(elements, 0, get, path, p[0].i);
          ResolvedAtEveryPath(elements[p[0].i], get, path + [Index(p[0].i)], p[1..]);
        }
    }
  }

  // ---------- One level of a value ----------

  /** All values, or the first error. */
  function Collect(rs: seq<Result<Value, Missing>>): Result<seq<Value>, Missing> {
    if rs == [] then Ok([])
    else match rs[0]
      case Err(e) => Err(e)
      case Ok(first) => match Collect(rs[1..]) case Err(e) => Err(e) case Ok(rest) => Ok([first] + rest)
  }

  lemma {:induction false} CollectFails(rs: seq<Result<Value, Missing>>, i: nat)
    requires i < |rs| && rs[i].Err? && forall j | 0 <= j < i :: rs[j].Ok?
    ensures Collect(rs) == Err(rs[i].error)
  {
    if i > 0 {
      CollectFails(rs[1..], i - 1);
    }
  }

  lemma {:induction false} CollectSucceeds(rs: seq<Result<Value, Missing>>)
    requires forall j | 0 <= j < |rs| :: rs[j].Ok?
    ensures Collect(rs).Ok? && |Collect(rs).value| == |rs|
    ensures forall j | 0 <= j < |rs| :: Collect(rs).value[j] == rs[j].value
  {
    if rs != [] {
      CollectSucceeds(rs[1..]);
    }
  }

  function EachElement(elements: seq<Value>, n: nat, get: Provider, path: Path): (rs: seq<Result<Value, Missing>>)
    ensures |rs| == |elements|
    ensures forall j | 0 <= j < |elements| :: rs[j] == Resolve(elements[j], get, path + [Index(n + j)])
  {
    seq(|elements|, j requires 0 <= j < |elements| => Resolve(elements[j], get, path + [Index(n + j)]))
  }

  lemma EachOfRest(elements: seq<Value>, n: nat, get: Provider, path: Path)
    requires elements != []
    ensures EachElement(elements, n, get, path)[1..] == EachElement(elements[1..], n + 1, get, path)
  {
    var rs, rest := EachElement(elements, n, get, path), EachElement(elements[1..], n + 1, get, path);
    forall j | 0 <= j < |rest|
      ensures rs[1..][j] == rest[j]
    {
      assert elements[1..][j] == elements[j + 1] && n + 1 + j == n + (j + 1);
    }
  }

  lemma {:induction false} ElementsCollected(elements: seq<Value>, n: nat, get: Provider, path: Path)
    ensures ResolveElements(elements, n, get, path) == Collect(EachElement(elements, n, get, path))
  {
    if elements != [] {
      ElementsCollected(elements[1..], n + 1, get, path);
      EachOfRest(elements, n, get, path);
      assert n + 0 == n;
    }
  }

  /** Text is resolved as text, and what is neither text, list nor dictionary is kept. */
  lemma LeavesResolve(s: string, id: int, get: Provider, path: Path)
    ensures Resolve(Other(id), get, path) == Ok(Other(id))
    ensures match ResolveString(s, get, path)
            case Ok(t) => Resolve(Str(s), get, path) == Ok(Str(t))
            case Err(e) => Resolve(Str(s), get, path) == Err(e)
  {
  }

  /** A list resolves if all its elements do, to a list of the same length with each element resolved. */
  lemma ListResolves(elements: seq<Value>, get: Provider, path: Path)
    requires forall j | 0 <= j < |elements| :: Resolve(elements[j], get, path + [Index(j)]).Ok?
    ensures var r := Resolve(List(elements), get, path);
            && r.Ok? && r.value.List? && |r.value.elements| == |elements|
            && forall j | 0 <= j < |elements| :: Resolve(elements[j], get, path + [Index(j)]) == Ok(r.value.elements[j])
  {
    ElementsCollected(elements, 0, get, path);
    var rs := EachElement(elements, 0, get, path);
    forall j | 0 <= j < |elements|
      ensures rs[j] == Resolve(elements[j], get, path + [Index(j)])
    {
      assert 0 + j == j;
    }
    CollectSucceeds(rs);
  }

  /** Otherwise it fails as its first element that does not. */
  lemma ListFails(elements: seq<Value>, get: Provider, path: Path, i: nat)
    requires i < |elements| && Resolve(elements[i], get, path + [Index(i)]).Err?
    requires forall j | 0 <= j < i :: Resolve(elements[j], get, path + [Index(j)]).Ok?
    ensures Resolve(List(elements), get, path) == Err(Resolve(elements[i], get, path + [Index(i)]).error)
  {
    ElementsCollected(elements, 0, get, path);
    var rs := EachElement(elements, 0, get, path);
    forall j | 0 <= j < |elements|
      ensures rs[j] == Resolve(elements[j], get, path + [Index(j)])
    {
      assert 0 + j == j;
    }
    CollectFails(rs, i);
  }

  lemma ItemsFail(items: seq<Member>, get: Provider, path: Path, i: nat)
    requires i < |items| && Resolve(items[i].value, get, path + [Field(items[i].name)]).Err?
    requires forall j | 0 <= j < i :: Resolve(items[j].value, get, path + [Field(items[j].name)]).Ok?
    ensures ResolveItems(items, get, path) == Err(Resolve(items[i].value, get, path + [Field(items[i].name)]).error)
  {
    PrefixSucceeds(items, get, path, i);
    ResolveItemsSnoc(items[..i], items[i], get, path);
    assert items[..i] + [items[i]] == items[..i + 1];
    ResolveItemsPrefix(items, i + 1, get, path);
  }

  lemma PrefixSucceeds(items: seq<Member>, get: Provider, path: Path, i: nat)
    requires i <= |items|
    requires forall j | 0 <= j < i :: Resolve(items[j].value, get, path + [Field(items[j].name)]).Ok?
    ensures ResolveItems(items[..i], get, path).Ok?
  {
    ItemsSucceed(items[..i], get, path);
  }

  lemma {:induction false} ItemsSucceed(items: seq<Member>, get: Provider, path: Path)
    requires forall j | 0 <= j < |items| :: Resolve(items[j].value, get, path + [Field(items[j].name)]).Ok?
    ensures ResolveItems(items, get, path).Ok?
  {
    if items != [] {
      assert forall j | 0 <= j < |items[1..]| :: items[1..][j] == items[j + 1];
      ItemsSucceed(items[1..], get, path);
    }
  }

  /** A dictionary resolves if all its values do, to one with the same keys in the same order and each value
      resolved. */
  lemma DictResolves(items: seq<Member>, get: Provider, path: Path, i: nat)
    requires forall j | 0 <= j < |items| :: Resolve(items[j].value, get, path + [Field(items[j].name)]).Ok?
    ensures var r := Resolve(Dict(items), get, path);
            && r.Ok? && r.value.Dict? && |r.value.items| == |items|
            && (i < |items| ==>
                  && r.value.items[i].name == items[i].name
                  && Resolve(items[i].value, get, path + [Field(items[i].name)]) == Ok(r.value.items[i].value))
  {
    ItemsSucceed(items, get, path);
    if items != [] {
      ItemsResolved(items, get, path, if i < |items| then i else 0);
      if i < |items| {
        var r := ResolveItems(items, get, path).value;
        assert Names(r)[i] == Names(items)[i];
      }
    }
  }

  /** Otherwise it fails as its first value that does not. */
  lemma DictFails(items: seq<Member>, get: Provider, path: Path, i: nat)
    requires i < |items| && Resolve(items[i].value, get, path + [Field(items[i].name)]).Err?
    requires forall j | 0 <= j < i :: Resolve(items[j].value, get, path + [Field(items[j].name)]).Ok?
    ensures Resolve(Dict(items), get, path) == Err(Resolve(items[i].value, get, path + [Field(items[i].name)]).error)
  {
    ItemsFail(items, get, path, i);
  }

  // ---------- Profiles ----------

  lemma {:induction false} ResolveItemsSnoc(items: seq<Member>, item: Member, get: Provider, path: Path)
    ensures ResolveItems(items + [item], get, path)
            == match ResolveItems(items, get, path)
               case Err(e) => Err(e)
               case Ok(r) =>
                 match Resolve(item.value, get, path + [Field(item.name)])
                 case Err(e) => Err(e)
                 case Ok(v) => Ok(r + [Member(item.name, v)])
  {
    if items == [] {
      assert [] + [item] == [item];
      assert [item][1..] == [];
      var last := Resolve(item.value, get, path + [Field(item.name)]);
      if last.Ok? {
        assert [Member(item.name, last.value)] + [] == [] + [Member(item.name, last.value)];
      }
    } else {
      assert (items + [item])[1..] == items[1..] + [item];
      ResolveItemsSnoc(items[1..], item, get, path);
      var first, rest := Resolve(items[0].value, get, path + [Field(items[0].name)]), ResolveItems(items[1..], get, path);
      var last := Resolve(item.value, get, path + [Field(item.name)]);
      if first.Ok? && rest.Ok? && last.Ok? {
        var head, end := [Member(items[0].name, first.value)], [Member(item.name, last.value)];
        assert head + (rest.value + end) == (head + rest.value) + end;
      }
    }
  }

  lemma {:induction false} ResolveItemsPrefix(items: seq<Member>, n: nat, get: Provider, path: Path)
    requires n <= |items| && ResolveItems(items[..n], get, path).Err?
    ensures ResolveItems(items, get, path) == ResolveItems(items[..n], get, path)
    decreases |items| - n
  {
    if n == |items| {
      assert items[..n] == items;
    } else {
      ResolveItemsSnoc(items[..n], items[n], get, path);
      assert items[..n] + [items[n]] == items[..n + 1];
      ResolveItemsPrefix(items, n + 1, get, path);
    }
  }

  /** Resolves the fields of a profile one by one; the firmware field is set aside by the caller. */
  method ResolveProfile(fields: seq<Member>, get: Provider) returns (r: Result<seq<Member>, Missing>)
    ensures r == ResolveItems(fields, get, [])
    ensures match r case Ok(fields') => Resolve(Dict(fields), get, []) == Ok(Dict(fields')) case Err(e) => Resolve(Dict(fields), get, []) == Err(e)
  {
    var resolved: seq<Member> := [];
    for i := 0 to |fields|
      invariant ResolveItems(fields[..i], get, []) == Ok(resolved)
    {
      var field := fields[i];
      ghost var done := fields[..i];
      assert done + [field] == fields[..i + 1];
      assert [] + [Field(field.name)] == [Field(field.name)];
      ResolveItemsSnoc(done, field, get, []);
      var value := Resolve(field.value, get, [Field(field.name)]);
      if value.Err? {
        ResolveItemsPrefix(fields, i + 1, get, []);
        return Err(value.error);
      }
      resolved := resolved + [Member(field.name, value.value)];
    }
    assert fields[..|fields|] == fields;
    return Ok(resolved);
  }
}
