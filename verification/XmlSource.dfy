/**
 Reading of characters: line ends are normalised while a buffer is refilled, one character of
 the input after the other. However the refills cut the input, the parser gets the line-end
 normalisation of the whole of it (section 2.11 of XML 1.0 and of XML 1.1).
 */
module XmlSource {
  import opened Basics

  const LF := 0xa
  const GT := 0x3e                      // '>', which is always allowed
  const CR := 0xd
  const NEL := 0x85
  const LS := 0x2028
  const BUF_SIZE := 64

  /** What depends on the version of XML. */
  datatype Version = Version(newer: bool, allowed: int -> bool)

  predicate IsNewline(v: Version, c: int) {
    c == LF || c == CR || (v.newer && (c == NEL || c == LS))
  }

  /** A character on its own: line ends become line feeds, forbidden characters are replaced. */
  function Single(v: Version, c: int): int {
    if IsNewline(v, c) then LF else if c == GT || v.allowed(c) then c else REPLACEMENT
  }

  /** The second character of a two-character line end. */
  predicate Joins(v: Version, c: int) {
    c == LF || (v.newer && c == NEL)
  }

  /** The normalised text. */
  function Norm(v: Version, s: seq<int>): seq<int> {
    if s == [] then []
    else if s[0] == CR && |s| > 1 && Joins(v, s[1]) then [LF] + Norm(v, s[2..])
    else [Single(v, s[0])] + Norm(v, s[1..])
  }

  predicate EndsInCR(s: seq<int>) {
    s != [] && s[|s| - 1] == CR
  }

  lemma NormPair(v: Version, s: seq<int>)
    requires |s| > 1 && s[0] == CR && Joins(v, s[1])
    ensures Norm(v, s) == [LF] + Norm(v, s[2..])
  {
  }

  lemma NormSingle(v: Version, s: seq<int>)
    requires s != [] && !(|s| > 1 && s[0] == CR && Joins(v, s[1]))
    ensures Norm(v, s) == [Single(v, s[0])] + Norm(v, s[1..])
  {
  }

  /** A character is added unless it completes a line end. */
  function Added(v: Version, t: seq<int>, completes: bool, c: int): seq<int> {
    if completes then t else t + [Single(v, c)]
  }

  lemma AddedBehind(v: Version, x: int, t: seq<int>, completes: bool, c: int)
    ensures [x] + Added(v, t, completes, c) == Added(v, [x] + t, completes, c)
  {
    assert [x] + (t + [Single(v, c)]) == ([x] + t) + [Single(v, c)];
  }

  /** Normalisation one character at a time: all there is to remember is whether the last
      character was a carriage return. */
  lemma {:induction false} NormAppend(v: Version, s: seq<int>, c: int)
    ensures Norm(v, s + [c]) == if EndsInCR(s) && Joins(v, c) then Norm(v, s) else Norm(v, s) + [Single(v, c)]
  {
    var completes := EndsInCR(s) && Joins(v, c);
    assert Norm(v, s + [c]) == Added(v, Norm(v, s), completes, c) by {
      NormAdded(v, s, c);
    }
  }

  lemma {:induction false} NormAdded(v: Version, s: seq<int>, c: int)
    ensures Norm(v, s + [c]) == Added(v, Norm(v, s), EndsInCR(s) && Joins(v, c), c)
  {
    if s == [] {
      NormOne(v, c, c);
      assert s + [c] == [c];
    } else if |s| == 1 {
      NormOne(v, s[0], c);
      assert s + [c] == [s[0], c] && s == [s[0]];
    } else {
      hide IsNewline, Joins, Single, Norm, Added;
      var t, completes := s + [c], EndsInCR(s) && Joins(v, c);
      assert t[0] == s[0] && t[1] == s[1];
      if s[0] == CR && Joins(v, s[1]) {
        JoinsNoCR(v, s[1]);
        NormPair(v, s);
        NormPair(v, t);
        assert t[2..] == s[2..] + [c];
        NormAdded(v, s[2..], c);
        AddedBehind(v, LF, Norm(v, s[2..]), completes, c);
      } else {
        NormSingle(v, s);
        NormSingle(v, t);
        assert t[1..] == s[1..] + [c];
        NormAdded(v, s[1..], c);
        AddedBehind(v, Single(v, s[0]), Norm(v, s[1..]), completes, c);
      }
    }
  }

  lemma JoinsNoCR(v: Version, c: int)
    requires Joins(v, c)
    ensures c != CR
  {
  }

  lemma NormOne(v: Version, b: int, c: int)
    ensures Norm(v, [b, c]) == if b == CR && Joins(v, c) then [LF] else [Single(v, b), Single(v, c)]
    ensures Norm(v, [b]) == [Single(v, b)] && Single(v, CR) == LF
  {
    assert [b, c][1..] == [c] && [c][1..] == [] && [b, c][2..] == [] && [b][1..] == [];
  }

  /** What has been read stays read. */
  lemma {:induction false} NormPrefix(v: Version, s: seq<int>, n: nat)
    requires n <= |s|
    ensures Norm(v, s[..n]) <= Norm(v, s)
    decreases |s| - n
  {
    hide Norm;
    if n == |s| {
      assert s[..n] == s;
    } else {
      assert s[..n + 1] == s[..n] + [s[n]];
      NormAppend(v, s[..n], s[n]);
      NormPrefix(v, s, n + 1);
    }
  }

  /** Texts are normalised one after the other, unless they part the two characters of a line end. */
  lemma {:induction false} NormConcat(v: Version, s: seq<int>, t: seq<int>)
    requires !(EndsInCR(s) && t != [] && Joins(v, t[0]))
    ensures Norm(v, s + t) == Norm(v, s) + Norm(v, t)
  {
    if s == [] {
      assert s + t == t;
    } else {
      hide IsNewline, Joins, Single, Norm;
      var u := s + t;
      if |s| > 1 && s[0] == CR && Joins(v, s[1]) {
        NormPair(v, s);
        NormPair(v, u);
        NormConcat(v, s[2..], t);
        assert u[2..] == s[2..] + t;
        Assoc([LF], Norm(v, s[2..]), Norm(v, t));
      } else {
        NormSingle(v, s);
        NormSingle(v, u);
        NormConcat(v, s[1..], t);
        assert u[1..] == s[1..] + t;
        Assoc([Single(v, s[0])], Norm(v, s[1..]), Norm(v, t));
      }
    }
  }

  /** The line ends of section 2.11 of XML 1.0, and those that XML 1.1 adds, become a line feed; any
      other character stays what it is, if it is allowed. */
  lemma LineEnds(v: Version, c: int)
    ensures Norm(v, [0xa]) == Norm(v, [0xd]) == Norm(v, [0xd, 0xa]) == [0xa]
    ensures v.newer ==> Norm(v, [0x85]) == Norm(v, [0xd, 0x85]) == Norm(v, [0x2028]) == [0xa]
    ensures c != 0xa && c != 0xd && !(v.newer && (c == 0x85 || c == 0x2028)) ==>
              Norm(v, [c]) == if c == 0x3e || v.allowed(c) then [c] else [0xfffd]
    ensures Joins(v, c) <==> c == 0xa || (v.newer && c == 0x85)
    ensures forall s :: EndsInCR(s) <==> s != [] && s[|s| - 1] == 0xd
  {
    NormOne(v, 0xa, 0xa);
    NormOne(v, 0xd, 0xa);
    NormOne(v, 0xd, 0x85);
    NormOne(v, 0x85, 0);
    NormOne(v, 0x2028, 0);
    NormOne(v, c, 0);
    hide Norm;
  }

  function Newlines(s: seq<int>): nat {
    if s == [] then 0 else Newlines(s[..|s| - 1]) + if s[|s| - 1] == LF then 1 else 0
  }

  lemma NewlinesMore(s: seq<int>, c: int)
    ensures Newlines(s + [c]) == Newlines(s) + if c == LF then 1 else 0
  {
    assert (s + [c])[..|s|] == s;
  }

  /** Categories, as bits: others, line ends, ordinary characters, and '>' where it ends the
      declaration. */
  function Category(v: Version, c: int): int {
    if IsNewline(v, c) then 2 else if c == GT then 8 else if v.allowed(c) then 4 else 1
  }

  /** The characters of pairs of a character and its category. */
  function Chars(words: seq<int>): (s: seq<int>)
    ensures |s| == |words| / 2
  {
    seq(|words| / 2, k requires 0 <= k < |words| / 2 => words[2 * k])
  }

  lemma CharsMore(words: seq<int>, c: int, t: int)
    requires |words| % 2 == 0
    ensures Chars(words + [c, t]) == Chars(words) + [c]
  {
  }

  ghost predicate Categorized(v: Version, words: seq<int>) {
    |words| % 2 == 0 && forall k :: 0 <= k < |words| / 2 ==> words[2 * k + 1] == Category(v, words[2 * k])
  }

  lemma CategorizedMore(v: Version, words: seq<int>, c: int)
    requires Categorized(v, words)
    ensures Categorized(v, words + [c, Category(v, c)])
  {
    hide Category;
  }

  class Source {
    const v: Version
    const input: seq<int>
    const buf: array<int>               // pairs of a character and its category
    var pos: nat
    var bptr: nat
    var bstop: nat
    var pending: bool                   // the last character read was a carriage return
    var row: nat
    var eof: bool
    var declaration: bool               // reading stops after '>'
    ghost var gone: seq<int>            // characters that are not in the buffer any more

    /** All characters read so far, normalised. */
    ghost function Produced(): seq<int>
      reads this`gone, this`bstop, buf
      requires bstop <= buf.Length
    {
      gone + Chars(buf[..bstop])
    }

    /** The characters the parser has taken. */
    ghost function Consumed(): seq<int>
      reads this`gone, this`bptr, buf
      requires bptr <= buf.Length
    {
      gone + Chars(buf[..bptr])
    }

    /** Holds while the buffer is being filled. */
    ghost predicate Filling()
      reads this`pos, this`bptr, this`bstop, this`row, this`eof, this`gone, buf
    {
      && buf.Length == BUF_SIZE && bptr <= bstop <= BUF_SIZE && bptr % 2 == 0 && pos <= |input|
      && Categorized(v, buf[..bstop])
      && Produced() == Norm(v, input[..pos])
      && row == Newlines(Produced())
      && (eof ==> pos == |input|)
    }

    ghost predicate Valid()
      reads this, buf
    {
      Filling() && (pending <==> EndsInCR(input[..pos]))
    }

    constructor (v: Version, input: seq<int>)
      ensures Valid() && Consumed() == [] && this.v == v && this.input == input && !declaration && fresh(buf)
    {
      this.v, this.input := v, input;
      buf := new int[BUF_SIZE];
      pos, bptr, bstop, pending, row, eof, declaration, gone := 0, 0, 0, false, 0, false, false, [];
    }

    /** Adds a character to the buffer. */
    method AddChar(c: int)
      requires buf.Length == BUF_SIZE && bptr <= bstop < BUF_SIZE && bstop % 2 == 0 && bptr % 2 == 0
      requires Categorized(v, buf[..bstop])
      modifies this`bstop, buf
      ensures bstop == old(bstop) + 2 && bstop <= BUF_SIZE && Categorized(v, buf[..bstop])
      ensures Produced() == old(Produced()) + [c] && Consumed() == old(Consumed())
    {
      hide Categorized, Chars, Category;
      ghost var before := buf[..bstop];
      CharsMore(before, c, Category(v, c));
      CategorizedMore(v, before, c);
      buf[bstop] := c;
      buf[bstop + 1] := Category(v, c);
      assert buf[..bstop + 2] == before + [c, Category(v, c)];
      assert buf[..bptr] == before[..bptr] == old(buf[..bptr]);
      assert gone + (Chars(before) + [c]) == (gone + Chars(before)) + [c];
      bstop := bstop + 2;
    }

    /** Reads a character into the buffer. `last` is where the buffer ended after the last
        carriage return; if it still ends there, the character may belong to that line end. */
    method ReadOne(last: int) returns (last': int, stop: bool)
      requires Filling() && pos < |input| && bstop < BUF_SIZE && !eof
      requires last <= bstop && (last == bstop <==> EndsInCR(input[..pos]))
      modifies this`pos, this`bstop, this`row, buf
      ensures Filling() && pos == old(pos) + 1
      ensures last' <= bstop && (last' == bstop <==> EndsInCR(input[..pos]))
      ensures Consumed() == old(Consumed()) && bstop >= old(bstop) && (stop ==> bstop > old(bstop))
    {
      hide Norm, Newlines, Chars, Categorized, Produced, Consumed;
      Even(v, buf[..bstop]);
      var c := input[pos];
      assert input[..pos + 1] == input[..pos] + [c];
      NormAppend(v, input[..pos], c);
      NewlinesMore(Produced(), Single(v, c));
      pos := pos + 1;
      last', stop := last, false;
      var t := Category(v, c);
      if t == 4 || (t == 8 && !declaration) {
        AddChar(c);
      } else if t == 2 {
        if c == CR {
          last' := bstop + 2;
        } else if c != LS && last == bstop {
          last' := -1;
          return;
        }
        AddChar(LF);
        row := row + 1;
      } else if c == GT {
        AddChar(c);
        stop := true;
      } else {
        AddChar(REPLACEMENT);
      }
    }

    /** Fills the buffer; what has been taken is dropped if nothing is left. */
    method Refill()
      requires Valid() && !eof && (bptr == bstop || bstop < BUF_SIZE)
      modifies this, buf
      ensures Valid() && Consumed() == old(Consumed())
      ensures eof || bptr < bstop
      ensures declaration == old(declaration)
    {
      hide Norm, Newlines, Categorized, Produced, Consumed, EndsInCR;
      if bptr == bstop {
        Drop();
      }
      var last := if pending then bstop else -1;
      var more := true;
      while more
        invariant Filling() && Consumed() == old(Consumed()) && declaration == old(declaration)
        invariant last <= bstop && (last == bstop <==> EndsInCR(input[..pos]))
        invariant if more then !eof && bstop < BUF_SIZE else eof || bptr < bstop
        decreases |input| - pos, more
      {
        if pos == |input| {
          eof := true;
          break;
        }
        var stop;
        last, stop := ReadOne(last);
        more := !stop && bstop < BUF_SIZE;
      }
      pending := last == bstop;
    }

    /** Starts again at the beginning of the buffer. */
    method Drop()
      requires Valid() && bptr == bstop
      modifies this`bptr, this`bstop, this`gone
      ensures Valid() && bptr == bstop == 0 && Consumed() == old(Consumed())
    {
      gone := gone + Chars(buf[..bstop]);
      bptr, bstop := 0, 0;
      assert Chars(buf[..0]) == [] && gone + [] == gone;
    }

    /** The next character of the normalised input, or its end. */
    method GetChar() returns (end: bool, c: int)
      requires Valid()
      modifies this, buf
      ensures Valid() && declaration == old(declaration)
      ensures end ==> Consumed() == old(Consumed()) == Norm(v, input)
      ensures !end ==> Consumed() == old(Consumed()) + [c] && Consumed() <= Norm(v, input) && bptr >= 2
    {
      hide Norm, Newlines, Categorized, Produced, Chars, EndsInCR;
      while bptr == bstop
        invariant Valid() && Consumed() == old(Consumed()) && declaration == old(declaration)
        decreases !eof, bptr == bstop
      {
        if eof {
          AllRead();
          return true, 0;
        }
        Refill();
      }
      end, c := false, buf[bptr];
      OneMore();
      bptr := bptr + 2;
    }

    lemma AllRead()
      requires Valid() && eof && bptr == bstop
      ensures Consumed() == Norm(v, input)
    {
      assert input[..|input|] == input;
    }

    lemma OneMore()
      requires Valid() && bptr < bstop
      ensures bptr + 2 <= bstop && gone + Chars(buf[..bptr + 2]) == Consumed() + [buf[bptr]]
      ensures gone + Chars(buf[..bptr + 2]) <= Norm(v, input)
    {
      assert buf[..bptr + 2] == buf[..bptr] + [buf[bptr], buf[bptr + 1]];
      CharsMore(buf[..bptr], buf[bptr], buf[bptr + 1]);
      assert (gone + Chars(buf[..bptr])) + [buf[bptr]] == gone + (Chars(buf[..bptr]) + [buf[bptr]]);
      assert Chars(buf[..bptr + 2]) <= Chars(buf[..bstop]);
      NormPrefix(v, input, pos);
    }

    /** Gives the last character back. */
    method UngetChar() returns (c: int)
      requires Valid() && bptr >= 2
      modifies this`bptr
      ensures Valid() && old(Consumed()) == Consumed() + [c]
    {
      bptr := bptr - 2;
      OneMore();
      c := buf[bptr];
    }

    /** The number of the row: one more than the line ends taken, those still in the buffer do
        not count. */
    method SourceRow() returns (r: nat)
      requires Valid()
      ensures r == 1 + Newlines(Consumed())
    {
      hide Norm, Newlines, Chars;
      var n, p := row, bstop;
      while p != bptr
        invariant bptr <= p <= bstop && p % 2 == 0 && n == Newlines(gone + Chars(buf[..p]))
      {
        RowStep(p);
        if buf[p - 1] == 2 {
          n := n - 1;
        }
        p := p - 2;
      }
      r := n + 1;
    }

    lemma RowStep(p: nat)
      requires Valid() && 2 <= p <= bstop && p % 2 == 0
      ensures Newlines(gone + Chars(buf[..p])) ==
              Newlines(gone + Chars(buf[..p - 2])) + if buf[p - 1] == 2 then 1 else 0
    {
      NewlineAt(p);
      hide Chars, Newlines, Valid;
      var words := buf[..p - 2];
      assert buf[..p] == words + [buf[p - 2], buf[p - 1]];
      CharsMore(words, buf[p - 2], buf[p - 1]);
      assert gone + (Chars(words) + [buf[p - 2]]) == (gone + Chars(words)) + [buf[p - 2]];
      NewlinesMore(gone + Chars(words), buf[p - 2]);
    }

    lemma NewlineAt(p: nat)
      requires Valid() && 2 <= p <= bstop && p % 2 == 0
      ensures buf[p - 1] == 2 <==> buf[p - 2] == LF
    {
      NormalChar(p - 2);
      hide Norm, Newlines, Chars;
      var k := (p - 2) / 2;
      assert buf[..bstop][2 * k + 1] == Category(v, buf[..bstop][2 * k]);
    }

    /** Only a line feed in the buffer is a line end. */
    lemma NormalChar(p: nat)
      requires Valid() && p + 2 <= bstop && p % 2 == 0
      ensures IsNewline(v, buf[p]) ==> buf[p] == LF
    {
      assert Chars(buf[..bstop])[p / 2] == buf[p];
      assert buf[p] in Produced();
      NormChars(v, input[..pos], buf[p]);
    }
  }

  lemma Even(v: Version, words: seq<int>)
    requires Categorized(v, words)
    ensures |words| % 2 == 0
  {
  }

  lemma {:induction false} NormChars(v: Version, s: seq<int>, c: int)
    requires c in Norm(v, s)
    ensures IsNewline(v, c) ==> c == LF
  {
    if s[0] == CR && |s| > 1 && Joins(v, s[1]) {
      if c != LF {
        NormChars(v, s[2..], c);
      }
    } else if c != Single(v, s[0]) {
      NormChars(v, s[1..], c);
    }
  }

  /** Reads everything: the characters are the normalised input, however often the buffer was
      filled, and at each of them the row is right. */
  method ReadAll(v: Version, input: seq<int>) returns (text: seq<int>, rows: seq<nat>)
    ensures text == Norm(v, input) && |rows| == |text|
    ensures forall k :: 0 <= k < |rows| ==> rows[k] == 1 + Newlines(text[..k])
  {
    hide Norm, Newlines;
    var source := new Source(v, input);
    text, rows := [], [];
    while true
      invariant fresh(source) && fresh(source.buf) && source.v == v && source.input == input
      invariant source.Valid() && text == source.Consumed() <= Norm(v, input)
      invariant |rows| == |text| && forall k :: 0 <= k < |rows| ==> rows[k] == 1 + Newlines(text[..k])
      decreases |Norm(v, input)| - |text|
    {
      var r := source.SourceRow();
      var end, c := source.GetChar();
      if end {
        return;
      }
      assert text[..|text|] == text;
      assert forall k :: 0 <= k <= |text| ==> (text + [c])[..k] == text[..k];
      text, rows := text + [c], rows + [r];
    }
  }
}
