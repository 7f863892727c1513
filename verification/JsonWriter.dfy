/**
 The JSON writer as it works: it appends to the output stream and keeps the indentation
 in a counter that goes up and down around the members of a container.
 */
module JsonWriter {
  import opened Basics
  import opened JsonText
  import opened JsonValue

  class Writer {
    const options: Options
    var out: seq<int>
    var outIndent: nat

    constructor (options: Options)
      ensures this.options == options && out == [] && outIndent == 0
    {
      this.options := options;
      out, outIndent := [], 0;
    }

    method Put(c: int)
      modifies this`out
      ensures out == old(out) + [c]
    {
      out := out + [c];
    }

    method PutAll(s: seq<int>)
      modifies this`out
      ensures out == old(out) + s
    {
      out := out + s;
    }

    method WriteString(p: seq<int>)
      requires IsText(p)
      modifies this`out
      ensures out == old(out) + PrintString(options, p)
    {
      Put(QUOTE);
      ghost var start := out;
      var i := 0;
      assert p[0..] == p;
      while i < |p|
        invariant i <= |p| && IsText(p[i..])
        invariant out + PrintChars(options, p[i..]) == start + PrintChars(options, p)
      {
        var u := p[i];
        ghost var before, rest := out, PrintChars(options, p[i + 1..]);
        assert p[i..][1..] == p[i + 1..];
        WriteChar(u);
        Assoc(before, PrintChar(options, u), rest);
        i := i + 1;
      }
      assert PrintChars(options, p[i..]) == [];
      Put(QUOTE);
      Assoc(start, PrintChars(options, p), [QUOTE]);
      Assoc(old(out), [QUOTE], PrintChars(options, p) + [QUOTE]);
      Assoc([QUOTE], PrintChars(options, p), [QUOTE]);
    }

    method WriteChar(u: int)
      requires u > 0
      modifies this`out
      ensures out == old(out) + PrintChar(options, u)
    {
      if u == QUOTE || u == BACKSLASH {
        Put(BACKSLASH);
        Put(u);
      } else if u < 0x20 {
        if u == 0x09 { PutAll([BACKSLASH, 0x74]); }
        else if u == 0x0a { PutAll([BACKSLASH, 0x6e]); }
        else if u == 0x0d { PutAll([BACKSLASH, 0x72]); }
        else { PutAll(UnicodeEscape(u)); }
      } else if u >= 0x7f && options.escapeNonAscii {
        if u < 0x10000 {
          PutAll(UnicodeEscape(u));
        } else if u < 0x110000 {
          PutAll(UnicodeEscape(0xd800 + (u - 0x10000) / 0x400) + UnicodeEscape(0xdc00 + u % 0x400));
        } else {
          PutAll(UnicodeEscape(REPLACEMENT));
        }
      } else {
        Put(u);
      }
    }

    method WriteSpace()
      modifies this`out
      ensures out == old(out) + Space(options, outIndent)
    {
      if options.indent {
        Put(NEWLINE);
        ghost var start := out;
        for i := 0 to outIndent
          invariant out == start + Tabs(i)
        {
          Put(TAB);
          TabsSnoc(i);
          Assoc(start, Tabs(i), [TAB]);
        }
        Assoc(old(out), [NEWLINE], Tabs(outIndent));
      } else {
        Put(BLANK);
      }
    }

    /** Appends the text of the tree and leaves the indentation as it was. */
    method WriteValue(n: Json)
      requires Printable(n)
      modifies this
      ensures outIndent == old(outIndent)
      ensures out == old(out) + Print(options, outIndent, n)
      decreases n, 0
    {
      hide Space, Tabs, PrintString, PrintElements, PrintPairs;
      match n
      case Null => PutAll(NULL_NAME);
      case Boolean(b) => PutAll(if b then TRUE_NAME else FALSE_NAME);
      case Number(t) => PutAll(t);
      case String(s) => WriteString(s);
      case Array(es) =>
        if es == [] {
          PutAll([OPEN_ARRAY, CLOSE_ARRAY]);
        } else {
          Put(OPEN_ARRAY);
          outIndent := outIndent + 1;
          WriteElements(es);
          outIndent := outIndent - 1;
          WriteSpace();
          Put(CLOSE_ARRAY);
          Joined(old(out), OPEN_ARRAY, PrintElements(options, outIndent + 1, es), Space(options, outIndent),
                 CLOSE_ARRAY);
        }
      case Object(ps) =>
        if ps == [] {
          PutAll([OPEN_OBJECT, CLOSE_OBJECT]);
        } else {
          Put(OPEN_OBJECT);
          outIndent := outIndent + 1;
          WritePairs(ps);
          outIndent := outIndent - 1;
          WriteSpace();
          Put(CLOSE_OBJECT);
          Joined(old(out), OPEN_OBJECT, PrintPairs(options, outIndent + 1, ps), Space(options, outIndent),
                 CLOSE_OBJECT);
        }
    }

    method WriteElements(es: seq<Json>)
      requires es != [] && forall i :: 0 <= i < |es| ==> Printable(es[i])
      modifies this
      ensures outIndent == old(outIndent)
      ensures out == old(out) + PrintElements(options, outIndent, es)
      decreases es, 0
    {
      hide Space, Print;
      ghost var start, n := out, outIndent;
      var i := 0;
      assert es[0..] == es;
      while i < |es|
        invariant i <= |es| && outIndent == n
        invariant i == 0 ==> out == start
        invariant i < |es| ==>
            out + (if i == 0 then [] else [COMMA]) + PrintElements(options, n, es[i..]) ==
                start + PrintElements(options, n, es)
        invariant i == |es| ==> out == start + PrintElements(options, n, es)
      {
        ghost var before := out;
        if i != 0 {
          Put(COMMA);
        }
        ghost var mid := out;
        WriteSpace();
        WriteValue(es[i]);
        ghost var rest := if i + 1 < |es| then [COMMA] + PrintElements(options, n, es[i + 1..]) else [];
        assert es[i..][1..] == es[i + 1..];
        assert PrintElements(options, n, es[i..]) == Space(options, n) + (Print(options, n, es[i]) + rest);
        Assoc(mid, Space(options, n), Print(options, n, es[i]) + rest);
        Assoc(mid + Space(options, n), Print(options, n, es[i]), rest);
        i := i + 1;
        if i < |es| {
          Assoc(out, [COMMA], PrintElements(options, n, es[i..]));
        }
      }
    }

    method WritePairs(ps: seq<Pair>)
      requires ps != [] && forall i :: 0 <= i < |ps| ==> IsText(ps[i].key) && Printable(ps[i].value)
      modifies this
      ensures outIndent == old(outIndent)
      ensures out == old(out) + PrintPairs(options, outIndent, ps)
      decreases ps, 0
    {
      hide Space, Print, PrintString;
      ghost var start, n := out, outIndent;
      var i := 0;
      assert ps[0..] == ps;
      while i < |ps|
        invariant i <= |ps| && outIndent == n
        invariant i == 0 ==> out == start
        invariant i < |ps| ==>
            out + (if i == 0 then [] else [COMMA]) + PrintPairs(options, n, ps[i..]) ==
                start + PrintPairs(options, n, ps)
        invariant i == |ps| ==> out == start + PrintPairs(options, n, ps)
      {
        if i != 0 {
          Put(COMMA);
        }
        ghost var mid := out;
        WritePair(ps[i]);
        ghost var rest := if i + 1 < |ps| then [COMMA] + PrintPairs(options, n, ps[i + 1..]) else [];
        assert ps[i..][1..] == ps[i + 1..];
        PairAssoc(mid, Space(options, n), PrintString(options, ps[i].key), Print(options, n, ps[i].value), rest);
        i := i + 1;
        if i < |ps| {
          Assoc(out, [COMMA], PrintPairs(options, n, ps[i..]));
        }
      }
    }

    method WritePair(p: Pair)
      requires IsText(p.key) && Printable(p.value)
      modifies this
      ensures outIndent == old(outIndent)
      ensures out == old(out) + Space(options, outIndent) + PrintString(options, p.key) + [COLON, BLANK]
              + Print(options, outIndent, p.value)
      decreases p.value, 1
    {
      WriteSpace();
      WriteString(p.key);
      PutAll([COLON, BLANK]);
      WriteValue(p.value);
    }

    /** A whole file. */
    method WriteFile(n: Json)
      requires Printable(n)
      modifies this
      ensures outIndent == old(outIndent)
      ensures out == old(out) + (Print(options, outIndent, n) + [NEWLINE])
    {
      WriteValue(n);
      Put(NEWLINE);
      Assoc(old(out), Print(options, outIndent, n), [NEWLINE]);
    }
  }

  lemma {:induction false} TabsSnoc(n: nat)
    ensures Tabs(n + 1) == Tabs(n) + [TAB]
  {
    if n > 0 {
      TabsSnoc(n - 1);
      Assoc([TAB], Tabs(n - 1), [TAB]);
    }
  }

  lemma Joined(out: seq<int>, open: int, members: seq<int>, space: seq<int>, close: int)
    ensures out + [open] + members + space + [close] == out + ([open] + (members + (space + [close])))
  {
  }

  lemma PairAssoc(out: seq<int>, w: seq<int>, k: seq<int>, v: seq<int>, rest: seq<int>)
    ensures out + (w + (k + ([COLON, BLANK] + (v + rest)))) == out + w + k + [COLON, BLANK] + v + rest
  {
  }
}
