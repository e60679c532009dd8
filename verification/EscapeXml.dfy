/** XML escaping by successive replacements (tftpos/validation.py). */
module EscapeXml {

  type Pairs = seq<(char, string)>

  /** The map in its insertion order, which is the order of the replacements. */
  const XML_ESCAPE_MAP: Pairs := [
    ('&', "&amp;"),
    ('<', "&lt;"),
    ('>', "&gt;"),
    ('"', "&quot;"),
    ('\'', "&apos;")]

  /** Python's `value.replace(c, r)` for a single character c. */
  function Replace(s: string, c: char, r: string): string {
    if s == "" then "" else (if s[0] == c then r else [s[0]]) + Replace(s[1..], c, r)
  }

  /** All replacements of a map, one after the other, each over the whole text. */
  function Sequential(ps: Pairs, s: string): string {
    if ps == [] then s else Sequential(ps[1..], Replace(s, ps[0].0, ps[0].1))
  }

  method Escape(value: string) returns (escaped: string)
    ensures escaped == Sequential(XML_ESCAPE_MAP, value)
  {
    escaped := value;
    for i := 0 to |XML_ESCAPE_MAP|
      invariant Sequential(XML_ESCAPE_MAP[i..], escaped) == Sequential(XML_ESCAPE_MAP, value)
    {
      var (c, replacement) := XML_ESCAPE_MAP[i];
      assert XML_ESCAPE_MAP[i..][1..] == XML_ESCAPE_MAP[i + 1..];
      escaped := Replace(escaped, c, replacement);
    }
  }

  // ---------- The per-character meaning ----------

  /** What one character becomes. */
  function Substitute(ps: Pairs, c: char): string {
    if ps == [] then [c] else if ps[0].0 == c then ps[0].1 else Substitute(ps[1..], c)
  }

  /** Each character replaced once, on its own. */
  function PerCharacter(ps: Pairs, s: string): string {
    if s == "" then "" else Substitute(ps, s[0]) + PerCharacter(ps, s[1..])
  }

  lemma {:induction false} ReplaceConcat(a: string, b: string, c: char, r: string)
    ensures Replace(a + b, c, r) == Replace(a, c, r) + Replace(b, c, r)
  {
    if a == "" {
      assert a + b == b;
    } else {
      assert (a + b)[1..] == a[1..] + b;
      ReplaceConcat(a[1..], b, c, r);
    }
  }

  /** Escaping distributes over concatenation, whatever the map. */
  lemma {:induction false} SequentialConcat(ps: Pairs, a: string, b: string)
    ensures Sequential(ps, a + b) == Sequential(ps, a) + Sequential(ps, b)
    decreases |ps|
  {
    if ps != [] {
      var (c, r) := ps[0];
      ReplaceConcat(a, b, c, r);
      SequentialConcat(ps[1..], Replace(a, c, r), Replace(b, c, r));
    }
  }

  ghost predicate Untouched(ps: Pairs, s: string) {
    forall i, j | 0 <= i < |ps| && 0 <= j < |s| :: ps[i].0 != s[j]
  }

  lemma {:induction false} ReplaceNothing(s: string, c: char, r: string)
    requires c !in s
    ensures Replace(s, c, r) == s
  {
    if s != "" {
      ReplaceNothing(s[1..], c, r);
    }
  }

  lemma {:induction false} SequentialNothing(ps: Pairs, s: string)
    requires Untouched(ps, s)
    ensures Sequential(ps, s) == s
    decreases |ps|
  {
    if ps != [] {
      ReplaceNothing(s, ps[0].0, ps[0].1);
      SequentialNothing(ps[1..], s);
    }
  }

  /** No replacement text contains a character that a later replacement would replace. */
  ghost predicate NeverRescans(ps: Pairs) {
    forall i, j | 0 <= i < j < |ps| :: ps[j].0 !in ps[i].1
  }

  lemma {:induction false} SequentialOfCharacter(ps: Pairs, c: char)
    requires NeverRescans(ps)
    ensures Sequential(ps, [c]) == Substitute(ps, c)
    decreases |ps|
  {
    if ps != [] {
      assert Replace([c], ps[0].0, ps[0].1) == (if ps[0].0 == c then ps[0].1 else [c]) + Replace("", ps[0].0, ps[0].1);
      assert Replace([c], ps[0].0, ps[0].1) == if ps[0].0 == c then ps[0].1 else [c];
      if ps[0].0 == c {
        forall i, j | 0 <= i < |ps[1..]| && 0 <= j < |ps[0].1|
          ensures ps[1..][i].0 != ps[0].1[j]
        {
          assert ps[i + 1].0 !in ps[0].1;
        }
        SequentialNothing(ps[1..], ps[0].1);
      } else {
        SequentialOfCharacter(ps[1..], c);
      }
    }
  }

  /** A map that never rescans escapes every text character by character. */
  lemma {:induction false} SequentialIsPerCharacter(ps: Pairs, s: string)
    requires NeverRescans(ps)
    ensures Sequential(ps, s) == PerCharacter(ps, s)
    decreases |s|
  {
    if s == "" {
      SequentialNothing(ps, "");
    } else {
      assert s == [s[0]] + s[1..];
      SequentialConcat(ps, [s[0]], s[1..]);
      SequentialOfCharacter(ps, s[0]);
      SequentialIsPerCharacter(ps, s[1..]);
    }
  }

  lemma MapNeverRescans()
    ensures NeverRescans(XML_ESCAPE_MAP)
  {
  }

  /** Hence the source's escaping is one substitution per character. */
  lemma EscapeIsPerCharacter(s: string)
    ensures Sequential(XML_ESCAPE_MAP, s) == PerCharacter(XML_ESCAPE_MAP, s)
  {
    MapNeverRescans();
    SequentialIsPerCharacter(XML_ESCAPE_MAP, s);
  }

  // ---------- The order of the map ----------

  ghost predicate Reordering(ps: Pairs) {
    multiset(ps) == multiset(XML_ESCAPE_MAP)
  }

  lemma ReorderingMembers(ps: Pairs)
    requires Reordering(ps)
    ensures forall i | 0 <= i < |ps| :: ps[i] in XML_ESCAPE_MAP
    ensures ('&', "&amp;") in ps
    ensures forall i, j | 0 <= i < j < |ps| :: ps[i] != ps[j]
  {
    forall i | 0 <= i < |ps|
      ensures ps[i] in XML_ESCAPE_MAP
    {
      assert ps[i] in multiset(ps);
      assert ps[i] in multiset(XML_ESCAPE_MAP);
    }
    assert ('&', "&amp;") == XML_ESCAPE_MAP[0];
    assert ('&', "&amp;") in multiset(XML_ESCAPE_MAP);
    assert ('&', "&amp;") in multiset(ps);
    forall i, j | 0 <= i < j < |ps|
      ensures ps[i] != ps[j]
    {
      assert ps[i] in XML_ESCAPE_MAP;
      assert multiset(XML_ESCAPE_MAP)[ps[i]] == 1;
      CountedTwice(ps, i, j);
    }
  }

  lemma CountedTwice(ps: Pairs, i: nat, j: nat)
    requires i < j < |ps|
    ensures ps[i] == ps[j] ==> multiset(ps)[ps[i]] >= 2
  {
    assert ps == ps[..i] + [ps[i]] + ps[i + 1..j] + [ps[j]] + ps[j + 1..];
  }

  lemma OnlyAmpersandRescans(p: (char, string), q: (char, string))
    requires p in XML_ESCAPE_MAP && q in XML_ESCAPE_MAP && q.0 in p.1
    ensures q == ('&', "&amp;")
  {
    assert forall c <- p.1 :: c in "&;ampltgquos";
  }

  lemma AmpersandFirstNeverRescans(ps: Pairs)
    requires Reordering(ps) && ps[0].0 == '&'
    ensures NeverRescans(ps)
  {
    ReorderingMembers(ps);
    assert ps[0] in XML_ESCAPE_MAP;
    forall i, j | 0 <= i < j < |ps|
      ensures ps[j].0 !in ps[i].1
    {
      assert ps[i] in XML_ESCAPE_MAP && ps[j] in XML_ESCAPE_MAP && ps[j] != ps[0];
      if ps[j].0 in ps[i].1 {
        OnlyAmpersandRescans(ps[i], ps[j]);
      }
    }
  }

  lemma {:induction false} ReplaceGrows(s: string, c: char, r: string)
    requires |r| >= 1
    ensures |Replace(s, c, r)| >= |s|
    ensures c in s ==> |Replace(s, c, r)| >= |s| + |r| - 1
  {
    if s != "" {
      ReplaceGrows(s[1..], c, r);
    }
  }

  lemma {:induction false} SequentialGrows(ps: Pairs, s: string)
    requires forall i | 0 <= i < |ps| :: |ps[i].1| >= 1
    ensures |Sequential(ps, s)| >= |s|
    decreases |ps|
  {
    if ps != [] {
      ReplaceGrows(s, ps[0].0, ps[0].1);
      SequentialGrows(ps[1..], Replace(s, ps[0].0, ps[0].1));
    }
  }

  lemma {:induction false} LaterAmpersandGrows(ps: Pairs, s: string, k: nat)
    requires k < |ps| && ps[k] == ('&', "&amp;") && '&' in s
    requires forall i | 0 <= i < |ps| :: |ps[i].1| >= 1 && (ps[i].0 == '&' ==> i == k)
    ensures |Sequential(ps, s)| > |s|
    decreases |ps|
  {
    var s' := Replace(s, ps[0].0, ps[0].1);
    ReplaceGrows(s, ps[0].0, ps[0].1);
    if k == 0 {
      SequentialGrows(ps[1..], s');
    } else {
      ReplaceKeeps(s, ps[0].0, ps[0].1, '&');
      LaterAmpersandGrows(ps[1..], s', k - 1);
    }
  }

  lemma {:induction false} ReplaceKeeps(s: string, c: char, r: string, d: char)
    requires d in s && d != c
    ensures d in Replace(s, c, r)
  {
    if s[0] != d {
      ReplaceKeeps(s[1..], c, r, d);
    }
  }

  /** Every entry but the ampersand's has another key. */
  lemma AmpersandOnce(ps: Pairs, k: nat, i: nat)
    requires Reordering(ps) && k < |ps| && ps[k] == ('&', "&amp;") && i < |ps|
    ensures |ps[i].1| >= 1 && ps[i].1[0] == '&' && (ps[i].0 == '&' ==> i == k)
  {
    ReorderingMembers(ps);
    assert ps[i] in XML_ESCAPE_MAP;
    if i < k {
      assert ps[i] != ps[k];
    } else if k < i {
      assert ps[k] != ps[i];
    }
  }

  lemma FirstReplacement(ps: Pairs)
    requires ps != [] && Substitute(ps, ps[0].0) == ps[0].1
    ensures Sequential(ps, [ps[0].0]) == Sequential(ps[1..], ps[0].1)
    ensures PerCharacter(ps, [ps[0].0]) == ps[0].1
  {
    var (c, r) := ps[0];
    assert [c][1..] == "";
    assert Replace([c], c, r) == r + Replace("", c, r) == r;
    assert PerCharacter(ps, [c]) == Substitute(ps, c) + PerCharacter(ps, "") == r;
  }

  /** With any other entry first, that entry's character is escaped twice. */
  lemma AmpersandNotFirstEscapesTwice(ps: Pairs)
    requires Reordering(ps) && ps[0].0 != '&'
    ensures Sequential(ps, [ps[0].0]) != PerCharacter(ps, [ps[0].0])
  {
    ReorderingMembers(ps);
    var k: nat :| k < |ps| && ps[k] == ('&', "&amp;");
    FirstReplacement(ps);
    AmpersandOnce(ps, k, 0);
    forall i | 0 <= i < |ps[1..]|
      ensures |ps[1..][i].1| >= 1 && (ps[1..][i].0 == '&' ==> i == k - 1)
    {
      AmpersandOnce(ps, k, i + 1);
    }
    LaterAmpersandGrows(ps[1..], ps[0].1, k - 1);
  }

  /** Among all orders of the map, successive replacement is one substitution per character exactly when
      the ampersand comes first. */
  lemma PerCharacterIffAmpersandFirst(ps: Pairs)
    requires Reordering(ps)
    ensures (forall s: string :: Sequential(ps, s) == PerCharacter(ps, s)) <==> ps != [] && ps[0].0 == '&'
  {
    ReorderingMembers(ps);
    if ps[0].0 == '&' {
      AmpersandFirstNeverRescans(ps);
      forall s: string
        ensures Sequential(ps, s) == PerCharacter(ps, s)
      {
        SequentialIsPerCharacter(ps, s);
      }
    } else {
      AmpersandNotFirstEscapesTwice(ps);
    }
  }

  // ---------- Decoding ----------

  /** Decodes the five predefined entities of section 4.6 of XML 1.0; other text stands for itself. */
  function Decode(s: string): string
    decreases |s|
  {
    if s == "" then ""
    else if "&amp;" <= s then "&" + Decode(s[5..])
    else if "&lt;" <= s then "<" + Decode(s[4..])
    else if "&gt;" <= s then ">" + Decode(s[4..])
    else if "&quot;" <= s then "\"" + Decode(s[6..])
    else if "&apos;" <= s then "'" + Decode(s[6..])
    else [s[0]] + Decode(s[1..])
  }

  lemma DecodeSubstituted(c: char, rest: string)
    ensures Decode(Substitute(XML_ESCAPE_MAP, c) + rest) == [c] + Decode(rest)
  {
    SubstituteByCases(c);
    if c in "&<>\"'" {
      DecodeEntity(Substitute(XML_ESCAPE_MAP, c), rest);
    } else {
      assert ([c] + rest)[0] == c && ([c] + rest)[1..] == rest;
    }
  }

  lemma DecodeEntity(e: string, rest: string)
    requires e in ["&amp;", "&lt;", "&gt;", "&quot;", "&apos;"]
    ensures Decode(e + rest)
            == (if e == "&amp;" then "&" else if e == "&lt;" then "<" else if e == "&gt;" then ">"
                else if e == "&quot;" then "\"" else "'") + Decode(rest)
  {
    var t := e + rest;
    assert t[|e|..] == rest && e <= t;
    assert t[1] == e[1] && t[2] == e[2];
  }

  lemma SubstituteByCases(c: char)
    ensures Substitute(XML_ESCAPE_MAP, c) ==
            if c == '&' then "&amp;" else if c == '<' then "&lt;" else if c == '>' then "&gt;"
            else if c == '"' then "&quot;" else if c == '\'' then "&apos;" else [c]
  {
    var m := XML_ESCAPE_MAP;
    assert m[1..] == [m[1], m[2], m[3], m[4]];
    assert m[1..][1..] == [m[2], m[3], m[4]];
    assert m[1..][1..][1..] == [m[3], m[4]];
    assert m[1..][1..][1..][1..] == [m[4]];
    assert m[1..][1..][1..][1..][1..] == [];
    assert Substitute([m[4]], c) == if m[4].0 == c then m[4].1 else Substitute([], c);
    assert Substitute([m[3], m[4]], c) == if m[3].0 == c then m[3].1 else Substitute([m[4]], c);
    assert Substitute([m[2], m[3], m[4]], c) == if m[2].0 == c then m[2].1 else Substitute([m[3], m[4]], c);
  }

  /** Escaping is undone by decoding. */
  lemma {:induction false} DecodeUndoesEscape(s: string)
    ensures Decode(Sequential(XML_ESCAPE_MAP, s)) == s
  {
    EscapeIsPerCharacter(s);
    if s != "" {
      EscapeIsPerCharacter(s[1..]);
      DecodeUndoesEscape(s[1..]);
      DecodeSubstituted(s[0], PerCharacter(XML_ESCAPE_MAP, s[1..]));
    }
  }

  /** Different texts have different escapes. */
  lemma EscapeIsInjective(s: string, t: string)
    requires Sequential(XML_ESCAPE_MAP, s) == Sequential(XML_ESCAPE_MAP, t)
    ensures s == t
  {
    DecodeUndoesEscape(s);
    DecodeUndoesEscape(t);
  }

  /** No markup character is left in an escaped text. */
  lemma {:induction false} EscapedHasNoMarkup(s: string)
    ensures forall c <- Sequential(XML_ESCAPE_MAP, s) :: c !in "<>\"'"
  {
    EscapeIsPerCharacter(s);
    if s != "" {
      EscapeIsPerCharacter(s[1..]);
      EscapedHasNoMarkup(s[1..]);
      SubstituteByCases(s[0]);
    }
  }

  /** Character by character: the five special ones become their entities, and every other is kept. */
  lemma EscapeByCharacter(c: char, s: string)
    ensures Sequential(XML_ESCAPE_MAP, "") == ""
    ensures Sequential(XML_ESCAPE_MAP, [c] + s)
            == (if c == '&' then "&amp;" else if c == '<' then "&lt;" else if c == '>' then "&gt;"
                else if c == '"' then "&quot;" else if c == '\'' then "&apos;" else [c])
               + Sequential(XML_ESCAPE_MAP, s)
  {
    EscapeIsPerCharacter("");
    EscapeIsPerCharacter(s);
    EscapeIsPerCharacter([c] + s);
    SubstituteByCases(c);
    assert ([c] + s)[0] == c && ([c] + s)[1..] == s;
  }
}
