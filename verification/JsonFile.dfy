/** The JSON writer and reader working on one file after the other. */
module JsonFile {
  import opened JsonText
  import opened JsonNumber
  import opened JsonValue
  import opened JsonRoundTrip
  import opened JsonStable
  import opened JsonReader
  import opened JsonWriter

  /** Writes a tree and reads the file: the same tree is returned exactly if it is acceptable, and
      otherwise its meaning or, if that is not acceptable either, an exception. */
  method WriteRead(fits: Range, options: Options, v: Json) returns (text: seq<int>, r: Result<NodeRef>)
    requires Printable(v)
    ensures text == Print(options, 0, v) + [NEWLINE]
    ensures r == Done(Node(v)) <==> Acceptable(fits, options, v)
    ensures r.Done? <==> Acceptable(fits, options, TreeMeaning(options, v))
    ensures r.Done? ==> r.value == Node(TreeMeaning(options, v))
  {
    hide Print, Parse, Acceptable, TreeMeaning, Printable;
    var writer := new Writer(options);
    writer.WriteFile(v);
    text := writer.out;
    assert text == Print(options, 0, v) + [NEWLINE];
    ReadWritten(fits, options, 0, v);
    RoundTrip(fits, options, 0, v);
    var reader := new Reader(text, fits);
    r := reader.ParseFile();
  }

  /** Reads any file, writes the tree and reads this: with escapes the same tree comes back, without
      them exactly if no string holds 0xF0000. */
  method ReadWriteRead(fits: Range, options: Options, text: seq<int>)
    returns (r: Result<NodeRef>, again: Result<NodeRef>)
    ensures match Parse(fits, text)
            case Ok(v, _) =>
              && r == Done(Node(v))
              && (again == r <==> options.escapeNonAscii || Without(v, ESCAPED_ONLY))
            case _ => r.Throw? && again == r
  {
    hide Print, Parse, Printable, Without;
    var reader := new Reader(text, fits);
    r := reader.ParseFile();
    again := r;
    if r.Done? {
      var v := r.value.v;
      ReadIsWritable(fits, text, v, Parse(fits, text).rest, options, 0);
      RoundTrip(fits, options, 0, v);
      var _, result := WriteRead(fits, options, v);
      again := result;
    }
  }
}
