/**
 Normalisation of white space in attribute values (section 3.3.3 of XML 1.0): in place, leading
 and trailing spaces are dropped and runs of spaces become one.
 */
module XmlWhite {
  import opened Basics

  const SP := 0x20

  /** The length of the part before the first space. */
  function WordLength(s: seq<int>): (n: nat)
    ensures n <= |s| && (n < |s| ==> s[n] == SP) && forall i :: 0 <= i < n ==> s[i] != SP
  {
    if s == [] || s[0] == SP then 0 else 1 + WordLength(s[1..])
  }

  /** The text split on spaces, without empty parts. */
  function Words(s: seq<int>): seq<seq<int>>
    decreases |s|
  {
    if s == [] then []
    else if s[0] == SP then Words(s[1..])
    else
      var n := WordLength(s);
      [s[..n]] + Words(s[n..])
  }

  /** Words joined with one space. */
  function Joined(words: seq<seq<int>>): seq<int> {
    if words == [] then []
    else if |words| == 1 then words[0]
    else words[0] + [SP] + Joined(words[1..])
  }

  /** Without its spaces. */
  function Letters(s: seq<int>): seq<int> {
    if s == [] then [] else Letter(s[0]) + Letters(s[1..])
  }

  function Letter(c: int): seq<int> {
    if c == 0x20 then [] else [c]
  }

  lemma {:induction false} LettersConcat(s: seq<int>, t: seq<int>)
    ensures Letters(s + t) == Letters(s) + Letters(t)
  {
    if s == [] {
      assert s + t == t;
    } else {
      LettersConcat(s[1..], t);
      hide Letter;
      assert (s + t)[1..] == s[1..] + t;
      Assoc(Letter(s[0]), Letters(s[1..]), Letters(t));
    }
  }

  /** Nothing but spaces is dropped or added. */
  lemma {:induction false} LettersKept(s: seq<int>)
    ensures Letters(Joined(Words(s))) == Letters(s)
    decreases |s|
  {
    if s != [] {
      if s[0] == SP {
        LettersKept(s[1..]);
      } else {
        var n := WordLength(s);
        LettersKept(s[n..]);
        LettersConcat(s[..n], s[n..]);
        assert s == s[..n] + s[n..];
        var ws := Words(s);
        assert ws[1..] == Words(s[n..]);
        if |ws| > 1 {
          LettersConcat(s[..n] + [SP], Joined(ws[1..]));
          LettersConcat(s[..n], [SP]);
          assert Letters([SP]) == [] by { assert [SP][1..] == []; }
        } else {
          assert Letters(s[n..]) == [];
        }
      }
    }
  }

  ghost predicate IsWord(w: seq<int>) {
    w != [] && SP !in w
  }

  lemma {:induction false} WordsAreWords(s: seq<int>)
    ensures forall i :: 0 <= i < |Words(s)| ==> IsWord(Words(s)[i])
    decreases |s|
  {
    if s != [] {
      if s[0] == SP {
        WordsAreWords(s[1..]);
      } else {
        WordsAreWords(s[WordLength(s)..]);
      }
    }
  }

  lemma {:induction false} WordLengthIs(w: seq<int>, rest: seq<int>)
    requires SP !in w && (rest != [] ==> rest[0] == SP)
    ensures WordLength(w + rest) == |w|
  {
    if w == [] {
      assert w + rest == rest;
    } else {
      assert (w + rest)[1..] == w[1..] + rest;
      WordLengthIs(w[1..], rest);
    }
  }

  lemma WordsFirst(w: seq<int>, rest: seq<int>)
    requires IsWord(w) && (rest != [] ==> rest[0] == SP)
    ensures Words(w + rest) == [w] + Words(rest)
  {
    WordLengthIs(w, rest);
    assert (w + rest)[..|w|] == w && (w + rest)[|w|..] == rest;
  }

  lemma {:induction false} WordsOfJoined(words: seq<seq<int>>)
    requires forall i :: 0 <= i < |words| ==> IsWord(words[i])
    ensures Words(Joined(words)) == words
  {
    if |words| == 1 {
      WordsFirst(words[0], []);
      assert words[0] + [] == words[0];
    } else if |words| > 1 {
      WordsOfJoined(words[1..]);
      var rest := [SP] + Joined(words[1..]);
      WordsFirst(words[0], rest);
      assert rest[1..] == Joined(words[1..]);
      assert words[0] + rest == words[0] + [SP] + Joined(words[1..]);
    }
  }

  /** Normalised text stays as it is. */
  lemma Idempotent(s: seq<int>)
    ensures Joined(Words(Joined(Words(s)))) == Joined(Words(s))
  {
    WordsAreWords(s);
    WordsOfJoined(Words(s));
  }

  /** Without a space at its end. */
  function Stripped(s: seq<int>): seq<int> {
    if s != [] && s[|s| - 1] == SP then s[..|s| - 1] else s
  }

  lemma {:induction false} SkipSpaces(s: seq<int>, n: nat)
    requires n <= |s| && forall i :: 0 <= i < n ==> s[i] == SP
    ensures Words(s) == Words(s[n..])
    decreases n
  {
    if n > 0 {
      assert s[1..][n - 1..] == s[n..];
      SkipSpaces(s[1..], n - 1);
    } else {
      assert s[0..] == s;
    }
  }

  /** Between words, `out` has been written and `rest` is still to be read. */
  ghost predicate Between(all: seq<int>, out: seq<int>, rest: seq<int>) {
    && (out != [] ==> out[|out| - 1] == SP)
    && (rest != [] ==> rest[0] != SP)
    && Joined(Words(all)) == Stripped(out + Joined(Words(rest)))
  }

  lemma WordAndSpaces(all: seq<int>, out: seq<int>, w: seq<int>, spaces: seq<int>, rest: seq<int>)
    requires Between(all, out, w + spaces + rest) && IsWord(w) && spaces != []
    requires (forall i :: 0 <= i < |spaces| ==> spaces[i] == SP) && (rest != [] ==> rest[0] != SP)
    ensures Between(all, out + w + [SP], rest)
  {
    hide Words, Joined;
    WordsFirst(w, spaces + rest);
    SkipSpaces(spaces + rest, |spaces|);
    assert (spaces + rest)[|spaces|..] == rest;
    assert w + (spaces + rest) == w + spaces + rest;
    hide Stripped;
    if Words(rest) == [] {
      JoinedLast(w);
      NoSpace(out, w);
      assert out + w + [SP] + [] == out + w + [SP];
      StrippedSpace(out + w);
    } else {
      JoinedFirst(w, Words(rest));
      var tail := Joined(Words(rest));
      assert out + (w + [SP] + tail) == (out + w + [SP]) + tail;
    }
  }

  lemma NoSpace(out: seq<int>, w: seq<int>)
    requires IsWord(w)
    ensures Stripped(out + w) == out + w
  {
    assert (out + w)[|out + w| - 1] == w[|w| - 1] && w[|w| - 1] in w;
  }

  lemma StrippedSpace(s: seq<int>)
    ensures Stripped(s + [SP]) == s
  {
  }

  lemma JoinedFirst(w: seq<int>, words: seq<seq<int>>)
    requires words != []
    ensures Joined([w] + words) == w + [SP] + Joined(words)
  {
    assert ([w] + words)[1..] == words;
  }

  lemma JoinedLast(w: seq<int>)
    ensures Joined([w] + []) == w && Joined([]) == []
  {
    assert [w] + [] == [w];
  }

  lemma LastWord(all: seq<int>, out: seq<int>, w: seq<int>)
    requires Between(all, out, w) && (w != [] ==> IsWord(w))
    ensures Joined(Words(all)) == Stripped(out + w)
  {
    if w != [] {
      WordsFirst(w, []);
      assert w + [] == w;
    }
  }

  lemma {:induction false} NoTrailing(words: seq<seq<int>>)
    requires forall i :: 0 <= i < |words| ==> IsWord(words[i])
    ensures Stripped(Joined(words)) == Joined(words)
    ensures words != [] ==> Joined(words) != []
  {
    if |words| > 1 {
      NoTrailing(words[1..]);
    }
  }

  lemma StartBetween(all: seq<int>, n: nat)
    requires n <= |all| && (forall i :: 0 <= i < n ==> all[i] == SP) && (n < |all| ==> all[n] != SP)
    ensures Between(all, [], all[n..])
  {
    SkipSpaces(all, n);
    WordsAreWords(all);
    NoTrailing(Words(all));
    assert [] + Joined(Words(all)) == Joined(Words(all));
  }

  /** A text that ends at the first zero. */
  ghost predicate Text(orig: seq<int>, end: nat) {
    end < |orig| && orig[end] == 0 && forall i :: 0 <= i < end ==> orig[i] != 0
  }

  /** The end of a run of spaces. */
  method SkipRun(text: array<int>, s: nat, ghost orig: seq<int>, ghost end: nat) returns (s': nat)
    requires Text(orig, end) && |orig| == text.Length && s <= end && text[s..] == orig[s..]
    ensures s <= s' <= end && orig[s'] != SP && forall i :: s <= i < s' ==> orig[i] == SP
  {
    s' := s;
    assert forall i :: s <= i < |orig| ==> text[i] == text[s..][i - s] == orig[s..][i - s] == orig[i];
    while text[s'] == SP
      invariant s <= s' <= end && forall i :: s <= i < s' ==> orig[i] == SP
      decreases end - s'
    {
      s' := s' + 1;
    }
  }

  /** Moves a word down; what has not been read stays. */
  method CopyWord(text: array<int>, s: nat, d: nat, ghost orig: seq<int>, ghost end: nat) returns (s': nat, d': nat)
    requires Text(orig, end) && |orig| == text.Length && d <= s <= end && text[s..] == orig[s..]
    modifies text
    ensures s <= s' <= end && d' - d == s' - s && text[s'..] == orig[s'..]
    ensures text[..d'] == old(text[..d]) + orig[s..s'] && SP !in orig[s..s'] && (s' < end ==> orig[s'] == SP)
  {
    s', d' := s, d;
    ghost var out := text[..d];
    assert orig[s..s] == [];
    while text[s'] != 0 && text[s'] != SP
      invariant s <= s' <= end && d' - d == s' - s && text[s'..] == orig[s'..]
      invariant text[..d'] == out + orig[s..s'] && SP !in orig[s..s']
      decreases end - s'
    {
      TailStep(text[..], orig, s');
      assert orig[s..s' + 1] == orig[s..s'] + [orig[s']];
      ghost var before, rest := text[..d'], text[s' + 1..];
      text[d'] := text[s'];
      assert text[..d' + 1] == before + [orig[s']];
      assert text[s' + 1..] == rest;
      s', d' := s' + 1, d' + 1;
    }
    TailStep(text[..], orig, s');
  }

  lemma TailStep(text: seq<int>, orig: seq<int>, s: nat)
    requires |text| == |orig| && s < |orig| && text[s..] == orig[s..]
    ensures text[s] == orig[s] && text[s + 1..] == orig[s + 1..]
  {
    assert text[s] == text[s..][0] == orig[s..][0];
    assert text[s + 1..] == text[s..][1..] == orig[s..][1..];
  }

  /** One more word and the spaces after it. */
  lemma NextBetween(orig: seq<int>, end: nat, out: seq<int>, s0: nat, s1: nat, s2: nat)
    requires Text(orig, end) && s0 < s1 < s2 <= end && Between(orig[..end], out, orig[s0..end])
    requires SP !in orig[s0..s1] && (forall i :: s1 <= i < s2 ==> orig[i] == SP) && orig[s2] != SP
    ensures Between(orig[..end], out + orig[s0..s1] + [SP], orig[s2..end])
  {
    hide Between;
    assert orig[s0..end] == orig[s0..s1] + orig[s1..s2] + orig[s2..end];
    WordAndSpaces(orig[..end], out, orig[s0..s1], orig[s1..s2], orig[s2..end]);
  }

  /** Works on a text that ends at the first zero; reading is never behind writing. */
  method NormalizeWhite(text: array<int>, ghost end: nat) returns (length: nat)
    requires Text(text[..], end)
    modifies text
    ensures length <= end && text[length] == 0
    ensures text[..length] == Joined(Words(old(text[..end])))
    ensures text[end + 1..] == old(text[end + 1..])
  {
    hide Between, Words, Joined;
    ghost var orig := text[..];
    var s, d := 0, 0;
    s := SkipRun(text, 0, orig, end);
    assert orig[..end][s..] == orig[s..end];
    StartBetween(orig[..end], s);
    assert text[..0] == [];
    while true
      invariant 0 <= d <= s <= end && text[s..] == orig[s..]
      invariant Between(orig[..end], text[..d], orig[s..end])
      decreases end - s
    {
      Starts(orig[..end], text[..d], orig[s..end]);
      ghost var s0, out := s, text[..d];
      s, d := CopyWord(text, s, d, orig, end);
      if text[s] == 0 {
        ZeroAt(text[..], orig, s, end);
        LastWord(orig[..end], out, orig[s0..s]);
        break;
      }
      ghost var s1 := s;
      ZeroAt(text[..], orig, s, end);
      s := SkipRun(text, s + 1, orig, end);
      NextBetween(orig, end, out, s0, s1, s);
      assert text[s..] == orig[s..] by { assert text[s1..][s - s1..] == orig[s1..][s - s1..]; }
      ghost var before := text[..d];
      text[d] := SP;
      assert text[..d + 1] == before + [SP];
      assert text[s..] == orig[s..];
      d := d + 1;
    }
    SameTail(text[..], orig, s, end);
    length := Terminate(text, d, end);
  }

  lemma SameTail(text: seq<int>, orig: seq<int>, s: nat, end: nat)
    requires |text| == |orig| && s <= end < |orig| && text[s..] == orig[s..]
    ensures text[end + 1..] == orig[end + 1..]
  {
    assert text[s..][end + 1 - s..] == orig[s..][end + 1 - s..];
  }

  /** Ends the text, without a trailing space. */
  method Terminate(text: array<int>, d: nat, ghost end: nat) returns (length: nat)
    requires d <= end < text.Length
    modifies text
    ensures length <= d && text[length] == 0 && text[..length] == Stripped(old(text[..d]))
    ensures text[end + 1..] == old(text[end + 1..])
  {
    length := d;
    if d != 0 && text[d - 1] == SP {
      length := d - 1;
    }
    text[length] := 0;
  }

  lemma Starts(all: seq<int>, out: seq<int>, rest: seq<int>)
    requires Between(all, out, rest)
    ensures rest != [] ==> rest[0] != SP
  {
  }

  lemma ZeroAt(text: seq<int>, orig: seq<int>, s: nat, end: nat)
    requires Text(orig, end) && |text| == |orig| && s <= end && text[s..] == orig[s..]
    ensures text[s] == orig[s] && (text[s] == 0 <==> s == end)
  {
    assert text[s] == text[s..][0] == orig[s..][0];
  }
}
