/** Migration file names: the pattern, the reader, and the names the scaffolder writes (migrations/migrations.go). */
module MigrationNames {
  import opened Options
  import opened GoStrings

  /** The four captured parts of a file name. */
  datatype FileName = FileName(identity: string, name: string, variant: string, direction: string)

  predicate IsDigit(c: char) {
    '0' <= c <= '9'
  }

  predicate NameChar(c: char) {
    IsDigit(c) || 'a' <= c <= 'z' || c == '_' || c == '-'
  }

  predicate Identity(s: string) {
    |s| == 14 && forall c :: c in s ==> IsDigit(c)
  }

  predicate Name(s: string) {
    s != "" && forall c :: c in s ==> NameChar(c)
  }

  predicate Variant(s: string) {
    s == "" || s == "postgres" || s == "sqlite"
  }

  predicate Direction(s: string) {
    s == "up" || s == "down"
  }

  predicate WellFormed(f: FileName) {
    Identity(f.identity) && Name(f.name) && Variant(f.variant) && Direction(f.direction)
  }

  function Stem(f: FileName): string {
    f.identity + "_" + f.name
  }

  function Ending(direction: string, tx: bool): string {
    (if tx then ".tx." else ".") + direction + ".sql"
  }

  /** A file name of the pattern, with or without its ".tx" part. */
  function Print(f: FileName, tx: bool): string {
    Stem(f) + (if f.variant == "" then Ending(f.direction, tx) else "." + f.variant + Ending(f.direction, tx))
  }

  /** The dot-separated pieces between the stem and the direction. */
  function Middle(variant: string, tx: bool): seq<string> {
    (if variant == "" then [] else [variant]) + (if tx then ["tx"] else [])
  }

  /** The variant those pieces stand for, if they fit the pattern. */
  function ReadMiddle(middle: seq<string>): Option<string> {
    if middle == [] || middle == ["tx"] then Some("")
    else if (middle == [middle[0]] || middle == [middle[0], "tx"]) && (middle[0] == "postgres" || middle[0] == "sqlite")
    then Some(middle[0])
    else None
  }

  /** The captured parts of a base name, None when the pattern does not match. */
  function Parse(base: string): Option<FileName> {
    var parts := Split(base, '.');
    var n := |parts|;
    if n < 3 || parts[n - 1] != "sql" || !Direction(parts[n - 2]) then None
    else
      var stem := parts[0];
      if |stem| < 16 || stem[14] != '_' || !Identity(stem[..14]) || !Name(stem[15..]) then None
      else
        match ReadMiddle(parts[1..n - 2])
        case None => None
        case Some(variant) => Some(FileName(stem[..14], stem[15..], variant, parts[n - 2]))
  }

  function Pieces(f: FileName, tx: bool): seq<string> {
    [Stem(f)] + Middle(f.variant, tx) + [f.direction, "sql"]
  }

  lemma EndingIsJoin(direction: string, tx: bool)
    ensures "." + Join(Middle("", tx) + [direction, "sql"], ".") == Ending(direction, tx)
  {
    assert Join(["sql"], ".") == "sql";
    hide Join;
    JoinCons(direction, ["sql"], ".");
    assert [direction] + ["sql"] == [direction, "sql"];
    if tx {
      JoinCons("tx", [direction, "sql"], ".");
      assert ["tx"] + [direction, "sql"] == Middle("", tx) + [direction, "sql"];
    } else {
      assert Middle("", tx) + [direction, "sql"] == [direction, "sql"];
    }
  }

  lemma VariantFirst(variant: string, tx: bool)
    requires variant != ""
    ensures Middle(variant, tx) == [variant] + Middle("", tx)
  {
  }

  lemma PrintIsJoin(f: FileName, tx: bool)
    ensures Print(f, tx) == Join(Pieces(f, tx), ".")
  {
    var inner := Middle("", tx) + [f.direction, "sql"];
    EndingIsJoin(f.direction, tx);
    hide Join, Ending, Stem, Middle;
    if f.variant == "" {
      JoinCons(Stem(f), inner, ".");
      assert Pieces(f, tx) == [Stem(f)] + inner;
      assert Stem(f) + "." + Join(inner, ".") == Stem(f) + ("." + Join(inner, "."));
    } else {
      VariantFirst(f.variant, tx);
      JoinCons(f.variant, inner, ".");
      JoinCons(Stem(f), [f.variant] + inner, ".");
      assert Pieces(f, tx) == [Stem(f)] + ([f.variant] + inner);
      assert Stem(f) + "." + (f.variant + "." + Join(inner, ".")) ==
             Stem(f) + ("." + f.variant + ("." + Join(inner, ".")));
    }
  }

  lemma NoDots(f: FileName, tx: bool)
    requires WellFormed(f)
    ensures forall p :: p in Pieces(f, tx) ==> '.' !in p
  {
    assert '.' !in Stem(f) by {
      assert forall c :: c in Stem(f) ==> c in f.identity || c == '_' || c in f.name;
    }
  }

  /** Every name of the pattern is read back to the parts it was made from. */
  lemma ParsePrint(f: FileName, tx: bool)
    requires WellFormed(f)
    ensures Parse(Print(f, tx)) == Some(f)
  {
    PrintIsJoin(f, tx);
    NoDots(f, tx);
    var pieces := Pieces(f, tx);
    SplitJoin(pieces, '.');
    hide Split, Join, Print;
    var n := |pieces|;
    var middle := Middle(f.variant, tx);
    assert pieces[1..n - 2] == middle;
    assert pieces[n - 2] == f.direction && pieces[n - 1] == "sql";
    var stem := pieces[0];
    assert stem[..14] == f.identity && stem[14] == '_' && stem[15..] == f.name;
    assert ReadMiddle(middle) == Some(f.variant);
  }

  /** The reader accepts exactly the names of the pattern, and says which parts make them up. */
  lemma ParseExactly(base: string, f: FileName)
    ensures Parse(base) == Some(f) <==> WellFormed(f) && (base == Print(f, false) || base == Print(f, true))
  {
    if WellFormed(f) {
      ParsePrint(f, false);
      ParsePrint(f, true);
    }
    if Parse(base) == Some(f) {
      var parts := Split(base, '.');
      var n := |parts|;
      JoinSplit(base, '.');
      var middle, stem := parts[1..n - 2], parts[0];
      var tx := middle != [] && middle[|middle| - 1] == "tx";
      PrintIsJoin(f, tx);
      hide Split, Join, Print;
      assert middle == Middle(f.variant, tx);
      assert stem == stem[..14] + "_" + stem[15..];
      assert parts == Pieces(f, tx);
    }
  }

  lemma PrintSpelled(f: FileName, tx: bool)
    ensures Print(f, tx) ==
            f.identity + "_" + f.name + (if f.variant == "" then "" else "." + f.variant) +
            (if tx then ".tx" else "") + "." + f.direction + ".sql"
  {
    var stem, rest := f.identity + "_" + f.name, "." + f.direction + ".sql";
    assert ".tx." + f.direction + ".sql" == ".tx" + rest;
    assert stem + ("." + f.variant + (".tx" + rest)) == stem + ("." + f.variant) + ".tx" + "." + f.direction + ".sql";
    assert stem + ("." + f.variant + rest) == stem + ("." + f.variant) + "" + "." + f.direction + ".sql";
    assert stem + (".tx" + rest) == stem + "" + ".tx" + "." + f.direction + ".sql";
    assert stem + rest == stem + "" + "" + "." + f.direction + ".sql";
  }

  /** The pattern written out: fourteen digits, a name, an optional dialect, an optional "tx", the direction. */
  lemma PatternExactly(base: string, f: FileName)
    ensures Parse(base) == Some(f) <==>
            && |f.identity| == 14 && (forall c :: c in f.identity ==> '0' <= c <= '9')
            && f.name != ""
            && (forall c :: c in f.name ==> '0' <= c <= '9' || 'a' <= c <= 'z' || c == '_' || c == '-')
            && f.variant in ["", "postgres", "sqlite"] && f.direction in ["up", "down"]
            && exists tx :: tx in ["", ".tx"] &&
                            base == f.identity + "_" + f.name + (if f.variant == "" then "" else "." + f.variant) +
                                    tx + "." + f.direction + ".sql"
  {
    ParseExactly(base, f);
    PrintSpelled(f, false);
    PrintSpelled(f, true);
    hide Parse, Print;
    assert "" in ["", ".tx"] && ".tx" in ["", ".tx"];
  }

  lemma ParsedIsSql(base: string)
    ensures Parse(base).Some? ==> HasSuffix(base, ".sql")
  {
    if Parse(base).Some? {
      PatternExactly(base, Parse(base).value);
    }
  }

  // ---------------------------------------------------------------- scaffolding

  predicate ScaffoldName(s: string) {
    s != "" && s[0] != '_' && s[0] != '-' && forall c :: c in s ==> NameChar(c)
  }

  /** Scaffolder.Create's two base names for a timestamp, None for a name it refuses. */
  function Scaffold(stamp: string, name: string): Option<(string, string)> {
    if !ScaffoldName(name) then None
    else
      var prefix := stamp + "_" + name + ".tx.";
      Some((prefix + "up.sql", prefix + "down.sql"))
  }

  lemma ScaffoldIsPrint(stamp: string, name: string, direction: string)
    ensures Print(FileName(stamp, name, "", direction), true) == stamp + "_" + name + ".tx." + (direction + ".sql")
  {
    var stem := stamp + "_" + name;
    assert stem + (".tx." + direction + ".sql") == stem + ".tx." + (direction + ".sql");
  }

  /** Both names the scaffolder writes are read back as the shared pair of that timestamp and name. */
  lemma ScaffoldReadsBack(stamp: string, name: string)
    requires Identity(stamp)
    ensures Scaffold(stamp, name).Some? <==>
            && name != "" && name[0] != '_' && name[0] != '-'
            && forall c :: c in name ==> '0' <= c <= '9' || 'a' <= c <= 'z' || c == '_' || c == '-'
    ensures Scaffold(stamp, name).Some? ==>
              Scaffold(stamp, name).value == (stamp + "_" + name + ".tx.up.sql", stamp + "_" + name + ".tx.down.sql")
    ensures Scaffold(stamp, name).Some? ==>
              Parse(Scaffold(stamp, name).value.0) == Some(FileName(stamp, name, "", "up")) &&
              Parse(Scaffold(stamp, name).value.1) == Some(FileName(stamp, name, "", "down"))
  {
    if ScaffoldName(name) {
      var up, down := FileName(stamp, name, "", "up"), FileName(stamp, name, "", "down");
      ParsePrint(up, true);
      ParsePrint(down, true);
      ScaffoldIsPrint(stamp, name, "up");
      ScaffoldIsPrint(stamp, name, "down");
      hide Parse, Print;
      assert "up" + ".sql" == "up.sql" && "down" + ".sql" == "down.sql";
      var stem := stamp + "_" + name;
      assert stem + ".tx." + "up.sql" == stem + ".tx.up.sql" && stem + ".tx." + "down.sql" == stem + ".tx.down.sql";
    }
  }
}
