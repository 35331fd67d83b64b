/** Recognising the reserved words of the query language. */
module ReservedWords {
  import opened CStrings

  // The reserved words, in table order, row by row as the table is laid
  // out; `MISSING` is listed twice.
  const Row0: seq<string> := ["AND", "ANY", "AS", "ASC", "BETWEEN", "BY", "CASE", "CROSS", "DESC", "DISTINCT"]
  const Row1: seq<string> := ["ELSE", "END", "EVERY", "FALSE", "FROM", "GROUP", "HAVING", "IN", "INNER", "IS"]
  const Row2: seq<string> := ["JOIN", "LEFT", "LIKE", "LIMIT", "MATCH", "META", "MISSING", "NATURAL", "NOT"]
  const Row3: seq<string> := ["NULL", "MISSING", "OFFSET", "ON", "OR", "ORDER", "OUTER", "REGEX", "RIGHT"]
  const Row4: seq<string> := ["SATISFIES", "SELECT", "THEN", "TRUE", "USING", "WHEN", "WHERE"]
  const Row5: seq<string> := ["COLLATE"]

  const Table: seq<string> := Row0 + Row1 + Row2 + Row3 + Row4 + Row5

  predicate IsUpperAscii(c: char) { 'A' <= c <= 'Z' }
  predicate IsLowerAscii(c: char) { 'a' <= c <= 'z' }

  /** `tolower` in the C locale. */
  function LowerAscii(c: char): char
  {
    if IsUpperAscii(c) then (c as int + 32) as char else c
  }

  /** `toupper` in the C locale. */
  function UpperAscii(c: char): char
  {
    if IsLowerAscii(c) then (c as int - 32) as char else c
  }

  function UpperString(s: string): (r: string)
    ensures |r| == |s| && forall k :: 0 <= k < |s| ==> r[k] == UpperAscii(s[k])
  {
    if s == [] then [] else [UpperAscii(s[0])] + UpperString(s[1..])
  }

  /** `strcasecmp(a, b) == 0`: equal lengths and equal characters once both
      are lower-cased. */
  predicate SameIgnoringCase(a: string, b: string)
  {
    |a| == |b| && forall k :: 0 <= k < |a| ==> LowerAscii(a[k]) == LowerAscii(b[k])
  }

  /** `ident` matches some table entry, ignoring case. */
  predicate Reserved(ident: string)
  {
    exists i :: 0 <= i < |Table| && SameIgnoringCase(ident, Table[i])
  }

  /** `isReservedWord(ident)`: scans the table in order for an entry equal
      to `ident` ignoring case. */
  method IsReservedWord(ident: CString) returns (b: bool)
    ensures b <==> Reserved(ident)
  {
    b := ScanIgnoringCase(ident, Table);
  }

  /** The scan of `isReservedWord`, over any table: the loop stops at the
      first entry that `strcasecmp` finds equal. */
  method ScanIgnoringCase(ident: string, words: seq<string>) returns (b: bool)
    ensures b <==> exists i :: 0 <= i < |words| && SameIgnoringCase(ident, words[i])
  {
    for i := 0 to |words|
      invariant forall j :: 0 <= j < i ==> !SameIgnoringCase(ident, words[j])
    {
      if SameIgnoringCase(ident, words[i]) {
        return true;
      }
    }
    return false;
  }

  /** A word of capital letters only. */
  predicate CapitalWord(w: string)
  {
    forall k :: 0 <= k < |w| ==> IsUpperAscii(w[k])
  }

  /** Every entry of `ws` is a capitalised word. */
  predicate AllCapital(ws: seq<string>)
  {
    forall i :: 0 <= i < |ws| ==> CapitalWord(ws[i])
  }

  lemma AllCapitalAppend(a: seq<string>, b: seq<string>)
    requires AllCapital(a) && AllCapital(b)
    ensures AllCapital(a + b)
  {
  }

  lemma Row0Capitalised()
    ensures AllCapital(Row0)
  {
    assert CapitalWord(Row0[0]);
    assert CapitalWord(Row0[1]);
    assert CapitalWord(Row0[2]);
    assert CapitalWord(Row0[3]);
    assert CapitalWord(Row0[4]);
    assert CapitalWord(Row0[5]);
    assert CapitalWord(Row0[6]);
    assert CapitalWord(Row0[7]);
    assert CapitalWord(Row0[8]);
    assert CapitalWord(Row0[9]);
  }

  lemma Row1Capitalised()
    ensures AllCapital(Row1)
  {
    assert CapitalWord(Row1[0]);
    assert CapitalWord(Row1[1]);
    assert CapitalWord(Row1[2]);
    assert CapitalWord(Row1[3]);
    assert CapitalWord(Row1[4]);
    assert CapitalWord(Row1[5]);
    assert CapitalWord(Row1[6]);
    assert CapitalWord(Row1[7]);
    assert CapitalWord(Row1[8]);
    assert CapitalWord(Row1[9]);
  }

  lemma Row2Capitalised()
    ensures AllCapital(Row2)
  {
    assert CapitalWord(Row2[0]);
    assert CapitalWord(Row2[1]);
    assert CapitalWord(Row2[2]);
    assert CapitalWord(Row2[3]);
    assert CapitalWord(Row2[4]);
    assert CapitalWord(Row2[5]);
    assert CapitalWord(Row2[6]);
    assert CapitalWord(Row2[7]);
    assert CapitalWord(Row2[8]);
  }

  lemma Row3Capitalised()
    ensures AllCapital(Row3)
  {
    assert CapitalWord(Row3[0]);
    assert CapitalWord(Row3[1]);
    assert CapitalWord(Row3[2]);
    assert CapitalWord(Row3[3]);
    assert CapitalWord(Row3[4]);
    assert CapitalWord(Row3[5]);
    assert CapitalWord(Row3[6]);
    assert CapitalWord(Row3[7]);
    assert CapitalWord(Row3[8]);
  }

  lemma Row4Capitalised()
    ensures AllCapital(Row4)
  {
    assert CapitalWord(Row4[0]);
    assert CapitalWord(Row4[1]);
    assert CapitalWord(Row4[2]);
    assert CapitalWord(Row4[3]);
    assert CapitalWord(Row4[4]);
    assert CapitalWord(Row4[5]);
    assert CapitalWord(Row4[6]);
  }

  lemma Row5Capitalised()
    ensures AllCapital(Row5)
  {
    assert CapitalWord(Row5[0]);
  }

  /** The table holds capitalised words only. */
  lemma TableIsCapitalised()
    ensures AllCapital(Table)
  {
    Row0Capitalised();
    Row1Capitalised();
    Row2Capitalised();
    Row3Capitalised();
    Row4Capitalised();
    Row5Capitalised();
    AllCapitalAppend(Row0, Row1);
    AllCapitalAppend(Row0 + Row1, Row2);
    AllCapitalAppend(Row0 + Row1 + Row2, Row3);
    AllCapitalAppend(Row0 + Row1 + Row2 + Row3, Row4);
    AllCapitalAppend(Row0 + Row1 + Row2 + Row3 + Row4, Row5);
  }

  /** Against a capitalised word, ignoring case is comparing the
      upper-cased identifier. */
  lemma SameIgnoringCaseCapital(x: string, w: string)
    requires CapitalWord(w)
    ensures SameIgnoringCase(x, w) <==> UpperString(x) == w
  {
    if SameIgnoringCase(x, w) {
      forall k | 0 <= k < |x|
        ensures UpperString(x)[k] == w[k]
      {
        CharCase(x[k], w[k]);
      }
    }
    if UpperString(x) == w {
      forall k | 0 <= k < |x|
        ensures LowerAscii(x[k]) == LowerAscii(w[k])
      {
        CharCase(x[k], w[k]);
      }
    }
  }

  /** One character against a capital letter. */
  lemma CharCase(c: char, d: char)
    requires IsUpperAscii(d)
    ensures LowerAscii(c) == LowerAscii(d) <==> UpperAscii(c) == d
  {
  }

  /** An identifier is reserved exactly when its upper-cased spelling is in
      the table. */
  lemma ReservedIffUpperInTable(ident: string)
    ensures Reserved(ident) <==> UpperString(ident) in Table
  {
    TableIsCapitalised();
    if Reserved(ident) {
      var i :| 0 <= i < |Table| && SameIgnoringCase(ident, Table[i]);
      SameIgnoringCaseCapital(ident, Table[i]);
    }
    if UpperString(ident) in Table {
      var i :| 0 <= i < |Table| && Table[i] == UpperString(ident);
      SameIgnoringCaseCapital(ident, Table[i]);
    }
  }

  /** The second `MISSING` changes nothing: the table without it reserves
      the same words. */
  lemma DuplicateHarmless(ident: string)
    ensures Table[26] == Table[30] == "MISSING"
    ensures Reserved(ident) <==>
      exists i :: 0 <= i < |Table| - 1 && SameIgnoringCase(ident, (Table[..30] + Table[31..])[i])
  {
    var t := Table[..30] + Table[31..];
    if Reserved(ident) {
      var i :| 0 <= i < |Table| && SameIgnoringCase(ident, Table[i]);
      if i < 30 {
        assert t[i] == Table[i];
      } else if i == 30 {
        assert t[26] == Table[26];
      } else {
        assert t[i - 1] == Table[i];
      }
    }
    if exists i :: 0 <= i < |Table| - 1 && SameIgnoringCase(ident, t[i]) {
      var i :| 0 <= i < |Table| - 1 && SameIgnoringCase(ident, t[i]);
      if i < 30 {
        assert t[i] == Table[i];
      } else {
        assert t[i] == Table[i + 1];
      }
    }
  }

  /** Keywords are recognised in any case. */
  lemma ReservedInAnyCase()
    ensures Reserved("select") && Reserved("Select") && Reserved("SELECT")
    ensures Reserved("missing")
  {
    assert SameIgnoringCase("select", Table[39]);
    assert SameIgnoringCase("Select", Table[39]);
    assert SameIgnoringCase("SELECT", Table[39]);
    assert SameIgnoringCase("missing", Table[26]);
  }

  lemma UpperSelected()
    ensures UpperString("selected") == "SELECTED"
  {
    assert UpperString("selected")[0] == 'S';
  }

  /** `SELECTED` is in no row of the table. */
  lemma SelectedNotInTable()
    ensures "SELECTED" !in Table
  {
    assert "SELECTED" !in Row0 by {
      assert Row0[9] == "DISTINCT";
    }
    assert "SELECTED" !in Row1 + Row2;
    assert "SELECTED" !in Row3 + Row4 + Row5;
    assert Table == Row0 + (Row1 + Row2) + (Row3 + Row4 + Row5);
  }

  /** A word that only starts with a keyword is not one. */
  lemma LongerWordNotReserved()
    ensures !Reserved("selected")
  {
    ReservedIffUpperInTable("selected");
    UpperSelected();
    SelectedNotInTable();
  }
}
