/**
 * The few string operations of Go's `strings` package that the endpoint
 * handlers use, specialised to one-character separators (the handlers only
 * split on ":" and "@").
 */
module Strings {

  /** `sub` occurs somewhere in `s` (Go's `strings.Contains`, JavaScript's `includes`). */
  predicate Contains(s: string, sub: string)
    decreases |s|
  {
    sub <= s || (s != [] && Contains(s[1..], sub))
  }

  /** `sub` occurs in `s` starting at index `i`. */
  predicate OccursAt(s: string, sub: string, i: int)
  {
    0 <= i && i + |sub| <= |s| && s[i..i + |sub|] == sub
  }

  /** `Contains` holds exactly when `sub` occurs at some index of `s`. */
  lemma {:induction false} ContainsAt(s: string, sub: string)
    ensures Contains(s, sub) <==> exists i :: OccursAt(s, sub, i)
  {
    if Contains(s, sub) {
      var i := ContainsWitness(s, sub);
    }
    if exists i :: OccursAt(s, sub, i) {
      var i :| OccursAt(s, sub, i);
      OccursAtContains(s, sub, i);
    }
  }

  /** An index where a contained `sub` occurs. */
  lemma {:induction false} ContainsWitness(s: string, sub: string) returns (i: nat)
    requires Contains(s, sub)
    ensures OccursAt(s, sub, i)
    decreases |s|
  {
    if sub <= s {
      i := 0;
    } else {
      var j := ContainsWitness(s[1..], sub);
      assert s[1..][j..j + |sub|] == s[j + 1..j + 1 + |sub|];
      i := j + 1;
    }
  }

  /** An occurrence at any index makes `Contains` hold. */
  lemma {:induction false} OccursAtContains(s: string, sub: string, i: int)
    requires OccursAt(s, sub, i)
    ensures Contains(s, sub)
    decreases |s|
  {
    if i == 0 {
      assert sub <= s;
    } else {
      assert s[1..][i - 1..i - 1 + |sub|] == s[i..i + |sub|];
      OccursAtContains(s[1..], sub, i - 1);
    }
  }

  /** Concatenation of all pieces. */
  function Concat(parts: seq<string>): string
  {
    if parts == [] then [] else parts[0] + Concat(parts[1..])
  }

  /** The pieces joined with `sep` between neighbours (Go's `strings.Join`). */
  function Join(parts: seq<string>, sep: char): string
  {
    if parts == [] then []
    else if |parts| == 1 then parts[0]
    else parts[0] + [sep] + Join(parts[1..], sep)
  }

  /**
   * Go's `strings.SplitAfter(s, sep)`: cut after every `sep`, keeping the
   * separator at the end of each piece; the last piece is the remainder.
   */
  function SplitAfter(s: string, sep: char): (parts: seq<string>)
    ensures sep !in s ==> parts == [s]
    ensures sep in s ==> |parts| >= 2
  {
    if s == [] then [[]]
    else if s[0] == sep then [[sep]] + SplitAfter(s[1..], sep)
    else
      var rest := SplitAfter(s[1..], sep);
      assert s == [s[0]] + s[1..];
      [[s[0]] + rest[0]] + rest[1..]
  }

  /** Go's `strings.Split(s, sep)`: the pieces between the separators, which are dropped. */
  function Split(s: string, sep: char): (parts: seq<string>)
    ensures sep !in s ==> parts == [s]
    ensures sep in s ==> |parts| >= 2
  {
    if s == [] then [[]]
    else if s[0] == sep then [[]] + Split(s[1..], sep)
    else
      var rest := Split(s[1..], sep);
      assert s == [s[0]] + s[1..];
      [[s[0]] + rest[0]] + rest[1..]
  }

  /** `SplitAfter` loses nothing: its pieces concatenate back to the input. */
  lemma {:induction false} SplitAfterConcat(s: string, sep: char)
    ensures Concat(SplitAfter(s, sep)) == s
  {
    if s != [] {
      var rest := SplitAfter(s[1..], sep);
      SplitAfterConcat(s[1..], sep);
      if s[0] == sep {
        assert SplitAfter(s, sep)[1..] == rest;
      } else {
        assert SplitAfter(s, sep)[1..] == rest[1..];
        assert rest == [rest[0]] + rest[1..];
        assert Concat(rest) == rest[0] + Concat(rest[1..]);
      }
    }
  }

  /** `Split` loses only the separators: joining its pieces with them gives the input back. */
  lemma {:induction false} SplitJoin(s: string, sep: char)
    ensures Join(Split(s, sep), sep) == s
  {
    if s != [] {
      var rest := Split(s[1..], sep);
      SplitJoin(s[1..], sep);
      if s[0] == sep {
        assert Split(s, sep)[1..] == rest;
      } else {
        var parts := Split(s, sep);
        assert parts[1..] == rest[1..];
        if |rest| == 1 {
          assert Join(parts, sep) == [s[0]] + rest[0];
        } else {
          assert Join(rest, sep) == rest[0] + [sep] + Join(rest[1..], sep);
          assert Join(parts, sep) == ([s[0]] + rest[0]) + [sep] + Join(rest[1..], sep);
        }
      }
    }
  }

  /** No piece of `Split` holds the separator. */
  lemma {:induction false} SplitPiecesAreClean(s: string, sep: char)
    ensures forall i :: 0 <= i < |Split(s, sep)| ==> sep !in Split(s, sep)[i]
  {
    if s != [] {
      SplitPiecesAreClean(s[1..], sep);
    }
  }

  /** A separator-free prefix stays glued to the first piece of `SplitAfter`. */
  lemma {:induction false} SplitAfterHead(a: string, c: char, b: string)
    requires c !in a
    ensures SplitAfter(a + b, c)[0] == a + SplitAfter(b, c)[0]
  {
    if a != [] {
      SplitAfterHead(a[1..], c, b);
      assert (a + b)[0] == a[0] && (a + b)[1..] == a[1..] + b;
      assert [a[0]] + (a[1..] + SplitAfter(b, c)[0]) == a + SplitAfter(b, c)[0];
    } else {
      assert a + b == b;
    }
  }

  /** What `SplitAfter` yields on `a + [c] + b` when `a` holds no `c`. */
  lemma {:induction false} SplitAfterFirst(a: string, c: char, b: string)
    requires c !in a
    ensures SplitAfter(a + [c] + b, c) == [a + [c]] + SplitAfter(b, c)
  {
    if a == [] {
      assert a + [c] + b == [c] + b;
      assert ([c] + b)[1..] == b;
    } else {
      SplitAfterFirst(a[1..], c, b);
      var s := a + [c] + b;
      assert s[0] == a[0] && s[1..] == a[1..] + [c] + b;
      var rest := SplitAfter(s[1..], c);
      assert rest[0] == a[1..] + [c] && rest[1..] == SplitAfter(b, c);
      assert [a[0]] + rest[0] == a + [c];
    }
  }

  /** What `Split` yields on `a + [c] + b` when `a` holds no `c`. */
  lemma {:induction false} SplitFirst(a: string, c: char, b: string)
    requires c !in a
    ensures Split(a + [c] + b, c) == [a] + Split(b, c)
  {
    if a == [] {
      assert a + [c] + b == [c] + b;
      assert ([c] + b)[1..] == b;
    } else {
      SplitFirst(a[1..], c, b);
      var s := a + [c] + b;
      assert s[0] == a[0] && s[1..] == a[1..] + [c] + b;
      var rest := Split(s[1..], c);
      assert rest[0] == a[1..] && rest[1..] == Split(b, c);
      assert [a[0]] + rest[0] == a;
    }
  }
}
