/** The minor-code list that is spliced textually into the closed-accounts
    query's IN clause (a list of values cannot be a bind variable). */
module MinorCodes {
  import opened Strings

  /** One configured code as it appears inside the quotes: stripped of
      surrounding whitespace and upper-cased, in that order. */
  function Normalize(code: string): string {
    Upper(Strip(code))
  }

  function Quote(code: string): string {
    "'" + code + "'"
  }

  /** One quoted item of the IN-clause list. */
  function Item(code: string): string {
    Quote(Normalize(code))
  }

  function Items(pieces: seq<string>): (r: seq<string>)
    ensures |r| == |pieces|
  {
    seq(|pieces|, k requires 0 <= k < |pieces| => Item(pieces[k]))
  }

  /** The IN-clause list built from the comma-separated `MINOR_CODES` value.
      An empty value gives an empty list (no filter text at all); any other
      value, even one made only of whitespace, gives at least one quoted item. */
  function FormatMinorCodes(codes: string): (r: string)
    ensures r == "" <==> codes == ""
    ensures codes != "" ==> Split(r, ',') == Items(Split(codes, ','))
  {
    if codes == "" then ""
    else
      var items := Items(Split(codes, ','));
      ItemsHaveNoComma(Split(codes, ','));
      SplitJoin(items, ',');
      assert |items[0]| >= 2;
      JoinNonEmpty(items, ',');
      Join(items, ',')
  }

  lemma ItemsHaveNoComma(pieces: seq<string>)
    requires forall k :: 0 <= k < |pieces| ==> ',' !in pieces[k]
    ensures forall k :: 0 <= k < |pieces| ==> ',' !in Items(pieces)[k]
  {
    forall k | 0 <= k < |pieces|
      ensures ',' !in Items(pieces)[k]
    {
      NormalizeHasNoComma(pieces[k]);
    }
  }

  lemma NormalizeHasNoComma(code: string)
    requires ',' !in code
    ensures ',' !in Normalize(code)
  {
    var t := Strip(code);
    assert forall i :: 0 <= i < |t| ==> t[i] in code by {
      var u := TrimStart(code);
      TrimStartIsSuffix(code);
      TrimEndIsPrefix(u);
      assert forall i :: 0 <= i < |u| ==> u[i] == code[|code| - |u| + i];
    }
    forall i | 0 <= i < |t| ensures Upper(t)[i] != ',' {
      UpperKeepsSpace(t[i]);
    }
  }

  lemma {:induction false} JoinNonEmpty(pieces: seq<string>, sep: char)
    requires |pieces| >= 1 && pieces[0] != ""
    ensures Join(pieces, sep) != ""
  {
    if |pieces| > 1 {
      assert Join(pieces, sep) == pieces[0] + [sep] + Join(pieces[1..], sep);
    }
  }

  // ---------------------------------------------------------------------------
  // Properties of the formatted list.

  /** Formatting a list written out from separate codes quotes each of them. */
  lemma FormatJoined(codes: seq<string>)
    requires |codes| >= 1
    requires forall k :: 0 <= k < |codes| ==> ',' !in codes[k]
    requires Join(codes, ',') != ""
    ensures FormatMinorCodes(Join(codes, ',')) == Join(Items(codes), ',')
  {
    SplitJoin(codes, ',');
  }

  /** Every item of the list is one input piece, stripped, upper-cased and
      single-quoted; there is one item per comma-separated piece. */
  lemma FormatItems(codes: string, k: nat)
    requires codes != "" && k < |Split(codes, ',')|
    ensures |Split(FormatMinorCodes(codes), ',')| == |Split(codes, ',')|
    ensures Split(FormatMinorCodes(codes), ',')[k] == "'" + Upper(Strip(Split(codes, ',')[k])) + "'"
  {
  }

  /** Two inputs whose pieces agree once stripped and upper-cased give the
      same list. */
  lemma FormatDependsOnlyOnNormalized(a: string, b: string)
    requires a != "" && b != ""
    requires |Split(a, ',')| == |Split(b, ',')|
    requires forall k :: 0 <= k < |Split(a, ',')| ==> Normalize(Split(a, ',')[k]) == Normalize(Split(b, ',')[k])
    ensures FormatMinorCodes(a) == FormatMinorCodes(b)
  {
    assert Items(Split(a, ',')) == Items(Split(b, ','));
  }

  /** Letter case of the input does not matter. */
  lemma FormatIgnoresCase(codes: string)
    ensures FormatMinorCodes(Upper(codes)) == FormatMinorCodes(codes)
  {
    if codes != "" {
      assert Upper(codes)[0] == UpperChar(codes[0]);
      SplitUpper(codes);
      forall k | 0 <= k < |Split(codes, ',')|
        ensures Normalize(Split(Upper(codes), ',')[k]) == Normalize(Split(codes, ',')[k])
      {
        var p := Split(codes, ',')[k];
        StripUpper(p);
        UpperIdempotent(Strip(p));
      }
      FormatDependsOnlyOnNormalized(Upper(codes), codes);
    }
  }

  /** Whitespace around any of the codes does not matter either. `Join(codes)`
      must be non-empty: a value made only of whitespace is not the empty
      value, and formats as `''`. */
  lemma FormatIgnoresPadding(codes: seq<string>, pre: seq<string>, post: seq<string>)
    requires |codes| >= 1 && |pre| == |codes| && |post| == |codes|
    requires forall k :: 0 <= k < |codes| ==> ',' !in codes[k]
    requires forall k :: 0 <= k < |codes| ==> AllSpace(pre[k]) && AllSpace(post[k])
    requires Join(codes, ',') != ""
    ensures FormatMinorCodes(Join(seq(|codes|, k requires 0 <= k < |codes| => pre[k] + codes[k] + post[k]), ','))
         == FormatMinorCodes(Join(codes, ','))
  {
    var padded := seq(|codes|, k requires 0 <= k < |codes| => pre[k] + codes[k] + post[k]);
    forall k | 0 <= k < |codes| ensures ',' !in padded[k] {
      assert forall i :: 0 <= i < |pre[k]| ==> pre[k][i] != ',';
      assert forall i :: 0 <= i < |post[k]| ==> post[k][i] != ',';
    }
    SplitJoin(padded, ',');
    SplitJoin(codes, ',');
    assert padded[0] != "" || |codes| > 1 by {
      if |codes| == 1 { assert Join(codes, ',') == codes[0]; }
    }
    if |codes| == 1 {
      assert Join(padded, ',') == padded[0];
    } else {
      assert Join(padded, ',') == padded[0] + [','] + Join(padded[1..], ',');
    }
    forall k | 0 <= k < |codes| ensures Normalize(padded[k]) == Normalize(codes[k]) {
      StripAbsorbsPadding(pre[k], codes[k], post[k]);
    }
    FormatDependsOnlyOnNormalized(Join(padded, ','), Join(codes, ','));
  }
}

module MinorCodesExamples {
  import opened Strings
  import opened MinorCodes

  /** `Join` of a six-element literal, by its elements' text. */
  lemma JoinOfSix(pieces: seq<string>, text: string)
    requires |pieces| == 6
    requires text == pieces[0] + "," + pieces[1] + "," + pieces[2] + "," + pieces[3] + "," + pieces[4] + "," + pieces[5]
    ensures Join(pieces, ',') == text
  {
    assert pieces == [pieces[0], pieces[1], pieces[2], pieces[3], pieces[4], pieces[5]];
    JoinSix(pieces[0], pieces[1], pieces[2], pieces[3], pieces[4], pieces[5]);
  }

  lemma JoinSix(a: string, b: string, c: string, d: string, e: string, f: string)
    ensures Join([a, b, c, d, e, f], ',') == a + "," + b + "," + c + "," + d + "," + e + "," + f
  {
    var ps := [a, b, c, d, e, f];
    assert Join(ps[5..], ',') == f;
    assert Join(ps[4..], ',') == e + "," + f by { assert ps[4..][1..] == ps[5..]; }
    assert Join(ps[3..], ',') == d + "," + e + "," + f by { assert ps[3..][1..] == ps[4..]; }
    assert Join(ps[2..], ',') == c + "," + d + "," + e + "," + f by { assert ps[2..][1..] == ps[3..]; }
    assert Join(ps[1..], ',') == b + "," + c + "," + d + "," + e + "," + f by { assert ps[1..][1..] == ps[2..]; }
  }

  /** A code that is already upper-case and unpadded is left as it is. */
  lemma NormalizeUpperCode(code: string)
    requires forall i :: 0 <= i < |code| ==> 'A' <= code[i] <= 'Z'
    ensures Normalize(code) == code
  {
    if |code| > 0 {
      assert TrimStart(code) == code;
      assert TrimEnd(code) == code;
    }
    assert Upper(code) == code;
  }

  /** `FormatJoined` for a value given as text. */
  lemma FormatText(s: string, codes: seq<string>)
    requires |codes| >= 1
    requires forall k :: 0 <= k < |codes| ==> ',' !in codes[k]
    requires s == Join(codes, ',') && s != ""
    ensures FormatMinorCodes(s) == Join(Items(codes), ',')
  {
    FormatJoined(codes);
  }

  lemma DefaultCodesQuoted(codes: seq<string>, quoted: seq<string>)
    requires codes == ["NACL", "NAIL", "UAOE", "UACL", "INRV", "INAU"]
    requires quoted == ["'NACL'", "'NAIL'", "'UAOE'", "'UACL'", "'INRV'", "'INAU'"]
    ensures Items(codes) == quoted
  {
    forall k | 0 <= k < 6 ensures Items(codes)[k] == quoted[k] {
      QuoteUpper(codes[k], quoted[k]);
    }
  }

  /** A code that is already upper-case and unpadded is only quoted. */
  lemma QuoteUpper(code: string, quoted: string)
    requires forall i :: 0 <= i < |code| ==> 'A' <= code[i] <= 'Z'
    requires quoted == "'" + code + "'"
    ensures Item(code) == quoted
  {
    NormalizeUpperCode(code);
  }

  lemma UpperListJoined(list: string, codes: seq<string>)
    requires list == "NACL,NAIL,UAOE,UACL,INRV,INAU"
    requires codes == ["NACL", "NAIL", "UAOE", "UACL", "INRV", "INAU"]
    ensures Join(codes, ',') == list && list != ""
  {
    JoinOfSix(codes, list);
  }


  lemma UpperCodesCommaFree(codes: seq<string>)
    requires codes == ["NACL", "NAIL", "UAOE", "UACL", "INRV", "INAU"]
    ensures forall k :: 0 <= k < |codes| ==> ',' !in codes[k]
  {
    forall k | 0 <= k < |codes| ensures ',' !in codes[k] {
      LettersHaveNoComma(codes[k]);
    }
  }

  lemma LettersHaveNoComma(code: string)
    requires forall i :: 0 <= i < |code| ==> 'A' <= code[i] <= 'Z' || 'a' <= code[i] <= 'z'
    ensures ',' !in code
  {
  }

  lemma QuotedListJoined(quoted: seq<string>, expected: string)
    requires quoted == ["'NACL'", "'NAIL'", "'UAOE'", "'UACL'", "'INRV'", "'INAU'"]
    requires expected == "'NACL','NAIL','UAOE','UACL','INRV','INAU'"
    ensures Join(quoted, ',') == expected
  {
    JoinSixGrouped("'NACL'", "'NAIL'", "'UAOE'", "'UACL'", "'INRV'", "'INAU'");
  }

  lemma FormatUpperCaseList(list: string, expected: string)
    requires list == "NACL,NAIL,UAOE,UACL,INRV,INAU"
    requires expected == "'NACL','NAIL','UAOE','UACL','INRV','INAU'"
    ensures FormatMinorCodes(list) == expected
  {
    var codes := ["NACL", "NAIL", "UAOE", "UACL", "INRV", "INAU"];
    var quoted := ["'NACL'", "'NAIL'", "'UAOE'", "'UACL'", "'INRV'", "'INAU'"];
    UpperListJoined(list, codes);
    UpperCodesCommaFree(codes);
    FormatText(list, codes);
    DefaultCodesQuoted(codes, quoted);
    QuotedListJoined(quoted, expected);
  }

  lemma FormatLowerCaseList(list: string, expected: string)
    requires list == "nacl,nail,uaoe,uacl,inrv,inau"
    requires expected == "'NACL','NAIL','UAOE','UACL','INRV','INAU'"
    ensures FormatMinorCodes(list) == expected
  {
    var codes := ["nacl", "nail", "uaoe", "uacl", "inrv", "inau"];
    var quoted := ["'NACL'", "'NAIL'", "'UAOE'", "'UACL'", "'INRV'", "'INAU'"];
    LowerListJoined(list, codes);
    LowerCodesCommaFree(codes);
    FormatText(list, codes);
    LowerCodesQuoted(codes, quoted);
    QuotedListJoined(quoted, expected);
  }

  lemma LowerCodesQuoted(codes: seq<string>, quoted: seq<string>)
    requires codes == ["nacl", "nail", "uaoe", "uacl", "inrv", "inau"]
    requires quoted == ["'NACL'", "'NAIL'", "'UAOE'", "'UACL'", "'INRV'", "'INAU'"]
    ensures Items(codes) == quoted
  {
    forall k | 0 <= k < 6 ensures Items(codes)[k] == quoted[k] {
      QuoteLower(codes[k], quoted[k]);
    }
  }

  /** A lower-case unpadded code is upper-cased and quoted. */
  lemma QuoteLower(code: string, quoted: string)
    requires forall i :: 0 <= i < |code| ==> 'a' <= code[i] <= 'z'
    requires |quoted| == |code| + 2 && quoted[0] == '\'' && quoted[|quoted| - 1] == '\''
    requires forall i :: 0 <= i < |code| ==> quoted[i + 1] == UpperChar(code[i])
    ensures Item(code) == quoted
  {
    if |code| > 0 {
      assert TrimStart(code) == code;
      assert TrimEnd(code) == code;
    }
    assert Item(code) == "'" + Upper(code) + "'";
  }

  /** `FormatIgnoresPadding` with the padded pieces named. */
  lemma FormatPaddedPieces(padded: seq<string>, codes: seq<string>, pre: seq<string>, post: seq<string>)
    requires |codes| >= 1 && |pre| == |codes| && |post| == |codes|
    requires forall k :: 0 <= k < |codes| ==> ',' !in codes[k]
    requires forall k :: 0 <= k < |codes| ==> AllSpace(pre[k]) && AllSpace(post[k])
    requires Join(codes, ',') != ""
    requires padded == seq(|codes|, k requires 0 <= k < |codes| => pre[k] + codes[k] + post[k])
    ensures FormatMinorCodes(Join(padded, ',')) == FormatMinorCodes(Join(codes, ','))
  {
    FormatIgnoresPadding(codes, pre, post);
  }

  lemma MessyPieces(padded: seq<string>, codes: seq<string>, pre: seq<string>, post: seq<string>)
    requires codes == ["nacl", "nail", "uaoe", "uacl", "inrv", "inau"]
    requires pre == [" ", "", "  ", " ", "\t", "\n"]
    requires post == ["", " ", "   ", " ", "\n", "\t"]
    requires padded == [" nacl", "nail ", "  uaoe   ", " uacl ", "\tinrv\n", "\ninau\t"]
    ensures padded == seq(|codes|, k requires 0 <= k < |codes| => pre[k] + codes[k] + post[k])
  {
    var p := seq(|codes|, k requires 0 <= k < |codes| => pre[k] + codes[k] + post[k]);
    assert p[0] == " nacl";
    assert p[1] == "nail ";
    assert p[2] == "  uaoe   ";
    assert p[3] == " uacl ";
    assert p[4] == "\tinrv\n";
    assert p[5] == "\ninau\t";
  }

  lemma MessyPadding(pre: seq<string>, post: seq<string>)
    requires pre == [" ", "", "  ", " ", "\t", "\n"]
    requires post == ["", " ", "   ", " ", "\n", "\t"]
    ensures forall k :: 0 <= k < |pre| ==> AllSpace(pre[k]) && AllSpace(post[k])
  {
  }

  lemma LowerCodesCommaFree(codes: seq<string>)
    requires codes == ["nacl", "nail", "uaoe", "uacl", "inrv", "inau"]
    ensures forall k :: 0 <= k < |codes| ==> ',' !in codes[k]
  {
    forall k | 0 <= k < |codes| ensures ',' !in codes[k] {
      LettersHaveNoComma(codes[k]);
    }
  }

  lemma LowerListJoined(list: string, codes: seq<string>)
    requires list == "nacl,nail,uaoe,uacl,inrv,inau"
    requires codes == ["nacl", "nail", "uaoe", "uacl", "inrv", "inau"]
    ensures Join(codes, ',') == list && list != ""
  {
    JoinOfSix(codes, list);
  }


  lemma MessyListJoined(list: string, padded: seq<string>)
    requires list == " nacl,nail ,  uaoe   , uacl ,\tinrv\n,\ninau\t"
    requires padded == [" nacl", "nail ", "  uaoe   ", " uacl ", "\tinrv\n", "\ninau\t"]
    ensures Join(padded, ',') == list
  {
    JoinSixGrouped(" nacl", "nail ", "  uaoe   ", " uacl ", "\tinrv\n", "\ninau\t");
  }

  /** `JoinSix` with the six pieces regrouped as two runs of three. */
  lemma JoinSixGrouped(a: string, b: string, c: string, d: string, e: string, f: string)
    ensures Join([a, b, c, d, e, f], ',') == (a + "," + b + "," + c) + "," + (d + "," + e + "," + f)
  {
    JoinSix(a, b, c, d, e, f);
  }

  lemma FormatMessyWhitespace(list: string, expected: string)
    requires list == " nacl,nail ,  uaoe   , uacl ,\tinrv\n,\ninau\t"
    requires expected == "'NACL','NAIL','UAOE','UACL','INRV','INAU'"
    ensures FormatMinorCodes(list) == expected
  {
    var codes := ["nacl", "nail", "uaoe", "uacl", "inrv", "inau"];
    var pre := [" ", "", "  ", " ", "\t", "\n"];
    var post := ["", " ", "   ", " ", "\n", "\t"];
    var padded := [" nacl", "nail ", "  uaoe   ", " uacl ", "\tinrv\n", "\ninau\t"];
    var plain := "nacl,nail,uaoe,uacl,inrv,inau";
    MessyPieces(padded, codes, pre, post);
    MessyPadding(pre, post);
    LowerCodesCommaFree(codes);
    LowerListJoined(plain, codes);
    MessyListJoined(list, padded);
    FormatPaddedPieces(padded, codes, pre, post);
    FormatLowerCaseList(plain, expected);
  }

  lemma FormatEmptyList()
    ensures FormatMinorCodes("") == ""
  {
  }
}
