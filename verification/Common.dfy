/** Datatypes and string helpers shared by the models of the tftpos modules. */
module Common {

  datatype Option<+T> = None | Some(value: T)

  datatype Result<+T, +E> = Ok(value: T) | Err(error: E)

  /** Lower-case one ASCII letter; every other character is unchanged. */
  function LowerChar(c: char): char {
    if 'A' <= c <= 'Z' then c - 'A' + 'a' else c
  }

  /** Python's `str.lower` restricted to ASCII. */
  function Lower(s: string): string {
    if s == "" then "" else Lower(s[..|s| - 1]) + [LowerChar(s[|s| - 1])]
  }

  lemma {:induction false} LowerIdempotent(s: string)
    ensures Lower(Lower(s)) == Lower(s)
  {
    if s != "" {
      var init, last := s[..|s| - 1], LowerChar(s[|s| - 1]);
      LowerIdempotent(init);
      assert (Lower(init) + [last])[..|Lower(init)|] == Lower(init);
    }
  }

  /** The characters differ at most in the case of an ASCII letter. */
  predicate SameLetter(c: char, d: char) {
    || c == d
    || ('A' <= c <= 'Z' && d as int == c as int + 32)
    || ('A' <= d <= 'Z' && c as int == d as int + 32)
  }

  lemma {:induction false} LowerAt(s: string, i: nat)
    requires i < |s|
    ensures |Lower(s)| == |s| && Lower(s)[i] == LowerChar(s[i])
  {
    if i < |s| - 1 {
      LowerAt(s[..|s| - 1], i);
    } else if |s| > 1 {
      LowerAt(s[..|s| - 1], 0);
    }
  }

  lemma LowerCharIff(c: char, d: char)
    ensures d == LowerChar(c) <==> SameLetter(c, d) && !('A' <= d <= 'Z')
  {
  }

  /** The lower-case form is the one text that is the same but for case and has no upper-case letter. */
  lemma LowerIff(s: string, t: string)
    ensures t == Lower(s)
            <==> |t| == |s| && forall i | 0 <= i < |s| :: SameLetter(s[i], t[i]) && !('A' <= t[i] <= 'Z')
  {
    var l := Lower(s);
    assert |l| == |s| by {
      if s != "" {
        LowerAt(s, 0);
      }
    }
    if |t| == |s| {
      forall i | 0 <= i < |s|
        ensures t[i] == l[i] <==> SameLetter(s[i], t[i]) && !('A' <= t[i] <= 'Z')
      {
        LowerAt(s, i);
        LowerCharIff(s[i], t[i]);
      }
      assert t == l <==> forall i | 0 <= i < |s| :: t[i] == l[i];
    }
  }

  lemma ConcatAssociates<T>(a: seq<T>, b: seq<T>, c: seq<T>)
    ensures a + (b + c) == (a + b) + c
  {
  }

  /** The subsequence of the elements that satisfy `p`, in order. */
  function Filter<T>(p: T -> bool, s: seq<T>): seq<T> {
    if s == [] then [] else (if p(s[0]) then [s[0]] else []) + Filter(p, s[1..])
  }

  lemma {:induction false} FilterConcat<T>(p: T -> bool, a: seq<T>, b: seq<T>)
    ensures Filter(p, a + b) == Filter(p, a) + Filter(p, b)
  {
    if a == [] {
      assert a + b == b;
    } else {
      var head := if p(a[0]) then [a[0]] else [];
      assert (a + b)[1..] == a[1..] + b;
      FilterConcat(p, a[1..], b);
      ConcatAssociates(head, Filter(p, a[1..]), Filter(p, b));
    }
  }
}
