/**
  Backslash escaping of a fetched body, so that it can sit inside an Elm
  triple-quoted string literal: every `\` becomes `\\`.
 */
module Escaping {
  import opened Wrappers
  import opened Text

  const Backslash: char := '\\'

  /** `s` with every backslash dropped: the characters escaping must leave alone, in order. */
  function WithoutBackslashes(s: string): string
  {
    if s == [] then [] else (if s[0] == Backslash then [] else [s[0]]) + WithoutBackslashes(s[1..])
  }

  lemma {:induction false} WithoutBackslashesAppend(a: string, b: string)
    ensures WithoutBackslashes(a + b) == WithoutBackslashes(a) + WithoutBackslashes(b)
  {
    if a == [] {
      assert a + b == b;
    } else {
      assert (a + b)[1..] == a[1..] + b;
      WithoutBackslashesAppend(a[1..], b);
    }
  }

  /** Doubles every backslash of `s` and leaves every other character in place. */
  function Escape(s: string): (e: string)
    ensures |s| <= |e| <= 2 * |s|
  {
    if s == [] then []
    else (if s[0] == Backslash then [Backslash, Backslash] else [s[0]]) + Escape(s[1..])
  }

  /**
    Escaping adds one character per backslash, doubles the number of
    backslashes, and keeps every other character in its order.
   */
  lemma {:induction false} EscapeCounts(s: string)
    ensures |Escape(s)| == |s| + Count(s, Backslash)
    ensures Count(Escape(s), Backslash) == 2 * Count(s, Backslash)
    ensures WithoutBackslashes(Escape(s)) == WithoutBackslashes(s)
  {
    if s != [] {
      var head := if s[0] == Backslash then [Backslash, Backslash] else [s[0]];
      var tail := Escape(s[1..]);
      EscapeCounts(s[1..]);
      CountAppend(head, tail, Backslash);
      WithoutBackslashesAppend(head, tail);
    }
  }

  /** Escaping works character by character, so it distributes over concatenation. */
  lemma {:induction false} EscapeAppend(a: string, b: string)
    ensures Escape(a + b) == Escape(a) + Escape(b)
  {
    if a == [] {
      assert a + b == b;
    } else {
      assert (a + b)[0] == a[0];
      assert (a + b)[1..] == a[1..] + b;
      EscapeAppend(a[1..], b);
    }
  }

  /**
    Reads an escaped text back: `\\` stands for one backslash, any other
    character for itself, and a lone backslash makes the text undecodable.
   */
  function Unescape(e: string): Option<string>
  {
    if e == [] then Some([])
    else if e[0] != Backslash then
      match Unescape(e[1..])
      case None => None
      case Some(t) => Some([e[0]] + t)
    else if 2 <= |e| && e[1] == Backslash then
      match Unescape(e[2..])
      case None => None
      case Some(t) => Some([Backslash] + t)
    else None
  }

  /** Escaping loses nothing: the escaped text decodes back to the original. */
  lemma {:induction false} UnescapeEscape(s: string)
    ensures Unescape(Escape(s)) == Some(s)
  {
    if s != [] {
      var e := Escape(s);
      UnescapeEscape(s[1..]);
      if s[0] == Backslash {
        assert e[2..] == Escape(s[1..]);
      } else {
        assert e[1..] == Escape(s[1..]);
      }
      assert s == [s[0]] + s[1..];
    }
  }

  /** Every text that decodes is the escaping of what it decodes to. */
  lemma {:induction false} EscapeUnescape(e: string, s: string)
    requires Unescape(e) == Some(s)
    ensures Escape(s) == e
  {
    if e != [] {
      if e[0] != Backslash {
        var t := Unescape(e[1..]).value;
        EscapeUnescape(e[1..], t);
        assert s == [e[0]] + t;
        assert s[1..] == t;
        assert e == [e[0]] + e[1..];
      } else {
        var t := Unescape(e[2..]).value;
        EscapeUnescape(e[2..], t);
        assert s == [Backslash] + t;
        assert s[1..] == t;
        assert e == [Backslash, Backslash] + e[2..];
      }
    }
  }

  /** Two bodies with the same escaping are the same body. */
  lemma EscapeInjective(a: string, b: string)
    requires Escape(a) == Escape(b)
    ensures a == b
  {
    UnescapeEscape(a);
    UnescapeEscape(b);
  }

  /** Escaping changes a text exactly when it holds a backslash. */
  lemma {:induction false} EscapeUnchangedIff(s: string)
    ensures Escape(s) == s <==> Backslash !in s
  {
    EscapeCounts(s);
    CountZero(s, Backslash);
    if Backslash !in s {
      NoBackslashEscape(s);
    }
  }

  lemma {:induction false} NoBackslashEscape(s: string)
    requires Backslash !in s
    ensures Escape(s) == s
  {
    if s != [] {
      assert Backslash !in s[1..] by {
        assert forall j :: 0 <= j < |s[1..]| ==> s[1..][j] == s[j + 1];
      }
      NoBackslashEscape(s[1..]);
      assert s == [s[0]] + s[1..];
    }
  }

  lemma EscapeLeadingBackslash(b: string)
    requires Backslash !in b
    ensures Escape([Backslash] + b) == [Backslash, Backslash] + b
  {
    assert Escape([Backslash]) == [Backslash, Backslash] by {
      assert [Backslash][1..] == [];
    }
    EscapeAppend([Backslash], b);
    NoBackslashEscape(b);
  }

  /** A text with a single backslash gets exactly that backslash doubled, as in `new\data` becoming `new\\data`. */
  lemma EscapeOneBackslash(a: string, b: string)
    requires Backslash !in a && Backslash !in b
    ensures Escape(a + [Backslash] + b) == a + [Backslash, Backslash] + b
  {
    var tail := [Backslash] + b;
    EscapeLeadingBackslash(b);
    EscapeAppend(a, tail);
    NoBackslashEscape(a);
    assert a + [Backslash] + b == a + tail;
    assert a + [Backslash, Backslash] + b == a + ([Backslash, Backslash] + b);
  }
}
