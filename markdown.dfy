/** Escaping of user-derived text for Telegram's MarkdownV2 message format:
    every reserved character is preceded by a backslash, nothing else changes
    (main.py, escape_markdown_v2). */
module MarkdownV2 {

  /** The character class of the substitution pattern. The backslash itself is not in it. */
  const Reserved: set<char> :=
    {'_', '*', '[', ']', '(', ')', '~', '`', '>', '#', '+', '-', '=', '|', '{', '}', '.', '!'}

  predicate IsReserved(c: char) {
    c in Reserved
  }

  /** Number of reserved characters in s. */
  function CountReserved(s: string): nat {
    if s == [] then 0 else (if IsReserved(s[0]) then 1 else 0) + CountReserved(s[1..])
  }

  /** What the substitution puts in place of one character: the character
      itself, preceded by a backslash exactly when it is reserved. */
  function EscapeChar(c: char): (r: string)
    ensures |r| == if IsReserved(c) then 2 else 1
    ensures r[|r| - 1] == c
    ensures IsReserved(c) ==> r[0] == '\\'
  {
    if IsReserved(c) then ['\\', c] else [c]
  }

  /** The backslash the substitution inserts is not in the class. */
  lemma BackslashNotReserved()
    ensures !IsReserved('\\')
  {
  }

  /** escape_markdown_v2: one backslash is inserted before each reserved character.
      The result never starts with a reserved character, and every reserved
      character after the first position follows a backslash. */
  function Escape(s: string): (r: string)
    ensures |r| == |s| + CountReserved(s)
    ensures r != [] ==> !IsReserved(r[0])
    ensures forall j :: 0 < j < |r| && IsReserved(r[j]) ==> r[j - 1] == '\\'
  {
    if s == [] then []
    else
      var t := Escape(s[1..]);
      var r := EscapeChar(s[0]) + t;
      assert forall j :: |EscapeChar(s[0])| <= j < |r| ==> r[j] == t[j - |EscapeChar(s[0])|];
      r
  }

  /** The inverse transformation, used by the round-trip property
      UnescapeEscape: a backslash that precedes a reserved character is
      dropped, everything else is copied. */
  function Unescape(s: string): (r: string)
    ensures |r| <= |s|
  {
    if s == [] then []
    else if |s| >= 2 && s[0] == '\\' && IsReserved(s[1]) then [s[1]] + Unescape(s[2..])
    else [s[0]] + Unescape(s[1..])
  }

  lemma {:induction false} CountReservedAppend(a: string, b: string)
    ensures CountReserved(a + b) == CountReserved(a) + CountReserved(b)
  {
    if a == [] {
      assert a + b == b;
    } else {
      assert (a + b)[1..] == a[1..] + b;
      CountReservedAppend(a[1..], b);
    }
  }

  /** Escaping works character by character: it distributes over concatenation. */
  lemma {:induction false} EscapeAppend(a: string, b: string)
    ensures Escape(a + b) == Escape(a) + Escape(b)
  {
    if a == [] {
      assert a + b == b;
    } else {
      assert (a + b)[1..] == a[1..] + b;
      EscapeAppend(a[1..], b);
    }
  }

  /** Where each input character lands: character i of s is shifted right by
      the number of reserved characters before it, and it is preceded by a
      backslash of its own exactly when it is reserved. */
  lemma {:induction false} EscapeAt(s: string, i: nat)
    requires i < |s|
    ensures var j := i + CountReserved(s[..i]);
            if IsReserved(s[i])
            then j + 1 < |Escape(s)| && Escape(s)[j] == '\\' && Escape(s)[j + 1] == s[i]
            else j < |Escape(s)| && Escape(s)[j] == s[i]
  {
    assert s == s[..i] + s[i..];
    EscapeAppend(s[..i], s[i..]);
    assert s[i..][1..] == s[i + 1..];
  }

  /** Removing each backslash that precedes a reserved character recovers the input. */
  lemma {:induction false} UnescapeEscape(s: string)
    ensures Unescape(Escape(s)) == s
  {
    if s != [] {
      var t := Escape(s[1..]);
      UnescapeEscape(s[1..]);
      if IsReserved(s[0]) {
        assert Escape(s) == ['\\', s[0]] + t;
        assert Escape(s)[2..] == t;
      } else {
        assert Escape(s) == [s[0]] + t;
        assert Escape(s)[1..] == t;
      }
    }
  }

  /** Escaping keeps the number of reserved characters: the inserted
      backslashes are not reserved. */
  lemma {:induction false} EscapeKeepsReservedCount(s: string)
    ensures CountReserved(Escape(s)) == CountReserved(s)
  {
    if s != [] {
      EscapeKeepsReservedCount(s[1..]);
      CountReservedAppend(EscapeChar(s[0]), Escape(s[1..]));
      assert CountReserved(EscapeChar(s[0])) == (if IsReserved(s[0]) then 1 else 0) by {
        if IsReserved(s[0]) {
          assert EscapeChar(s[0])[1..] == [s[0]];
        }
      }
    }
  }

  /** Escaping twice adds two characters per reserved character; which ones
      and where is EscapeTwiceCons. */
  lemma EscapeTwice(s: string)
    ensures |Escape(Escape(s))| == |s| + 2 * CountReserved(s)
  {
    EscapeKeepsReservedCount(s);
  }

  /** Escaping twice, character by character: a reserved character becomes
      two backslashes followed by the character, anything else is copied. */
  lemma EscapeTwiceCons(c: char, t: string)
    ensures Escape(Escape([c] + t)) == (if IsReserved(c) then ['\\', '\\', c] else [c]) + Escape(Escape(t))
  {
    assert ([c] + t)[1..] == t;
    assert Escape([c] + t) == EscapeChar(c) + Escape(t);
    EscapeAppend(EscapeChar(c), Escape(t));
    assert Escape([c]) == EscapeChar(c) by { assert [c][1..] == []; }
    if IsReserved(c) {
      assert ['\\', c][1..] == [c];
      assert Escape(['\\', c]) == ['\\'] + Escape([c]);
    }
  }

  /** Escaping is not idempotent: it is a fixed point of itself only on text
      without reserved characters. */
  lemma EscapeIdempotentIff(s: string)
    ensures Escape(Escape(s)) == Escape(s) <==> CountReserved(s) == 0
  {
    EscapeTwice(s);
  }

  lemma {:induction false} CountReservedZero(s: string)
    ensures CountReserved(s) == 0 <==> forall i :: 0 <= i < |s| ==> !IsReserved(s[i])
  {
    if s != [] {
      CountReservedZero(s[1..]);
      assert forall i :: 1 <= i < |s| ==> s[i] == s[1..][i - 1];
    }
  }

  /** Escaping leaves a text unchanged exactly when it holds no reserved character. */
  lemma EscapeUnchangedIff(s: string)
    ensures Escape(s) == s <==> forall i :: 0 <= i < |s| ==> !IsReserved(s[i])
  {
    CountReservedZero(s);
    if forall i :: 0 <= i < |s| ==> !IsReserved(s[i]) {
      EscapeIdentity(s);
    }
  }

  lemma {:induction false} EscapeIdentity(s: string)
    requires forall i :: 0 <= i < |s| ==> !IsReserved(s[i])
    ensures Escape(s) == s
  {
    if s != [] {
      assert forall i :: 0 <= i < |s[1..]| ==> s[1..][i] == s[i + 1];
      EscapeIdentity(s[1..]);
    }
  }

  /** The example the double-escaping warning is about: "." becomes "\." and then "\\.". */
  lemma EscapeDotTwice()
    ensures Escape(".") == "\\."
    ensures Escape(Escape(".")) == "\\\\."
  {
    assert Escape(".") == "\\." by { assert Escape("") == ""; assert "."[1..] == ""; }
  }
}
