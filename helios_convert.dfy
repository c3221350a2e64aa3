/**
 * The row conversion of the psf-vote helper script that turns a CivicCRM
 * export (name fields followed by an email, one voter per row) into the
 * three columns Helios Voting imports: `uniqueid, email, name`.
 *
 * Rows arrive already split into fields (CSV parsing is not modelled) and the
 * written rows are returned as a sequence (CSV writing is not modelled).
 * The random id generator is replaced by ids supplied by the caller.
 */
module HeliosConvert {
  import opened PyStrings

  /** Names a voter whose name fields are all blank gets "PSF Voter <id>". */
  const FallbackPrefix: string := "PSF Voter "

  /** One row of the Helios voter file. */
  datatype HeliosRow = HeliosRow(voterId: string, email: string, name: string)

  /** The two ways a short row makes the conversion raise IndexError. */
  datatype RowError =
    | PopFromEmptyList   // `row.pop()` on a row with no fields
    | IndexOutOfRange    // `row[-1]` on a row whose only field was the email

  datatype RowResult = Converted(out: HeliosRow) | Failed(error: RowError)

  /** How a whole conversion ends: every row written, or an exception that
      stops the run after the rows written so far. */
  datatype Outcome = Completed | Aborted(error: RowError)

  // ---------------------------------------------------------------------
  // Specification of one row
  // ---------------------------------------------------------------------

  /** The last name field after the comma and '@' cleanup, given the field
      already stripped: it is cut before its first comma, and blanked if what
      is left still holds an '@'. */
  function CleanLastNameField(f: string): (r: string)
    ensures ',' !in r && '@' !in r
    ensures r <= f
    ensures r == "" || r == Split(f, ',')[0]
    ensures r == "" <==> Split(f, ',')[0] == "" || '@' in Split(f, ',')[0]
    ensures ',' !in f && '@' !in f ==> r == f
  {
    var cut := if ',' in f then Split(f, ',')[0] else f;
    assert ',' !in f ==> Split(f, ',')[0] == f;
    if '@' in cut then "" else cut
  }

  /** The name fields of a row once the email has been popped: every field
      stripped, the last one also cleaned. */
  function NameFields(row: seq<string>): seq<string>
    requires |row| >= 2
  {
    var n := |row| - 1;
    seq(n, i requires 0 <= i < n =>
      if i < n - 1 then Strip(row[i]) else CleanLastNameField(Strip(row[i])))
  }

  /** The stripped space-join of the name fields is empty, so the voter gets
      the fallback name. */
  predicate UsesFallback(row: seq<string>)
    requires |row| >= 2
  {
    Strip(Join(NameFields(row), " ")) == ""
  }

  /** The display name: the stripped space-join of the name fields, or the
      fallback name built from the voter's id when that join is empty. */
  function DisplayName(names: seq<string>, userid: string): (name: string)
    ensures name != ""
  {
    var joined := Strip(Join(names, " "));
    if joined == "" then FallbackPrefix + userid else joined
  }

  /** What converting one row yields, given the id drawn for it. */
  function ConvertedRow(row: seq<string>, userid: string): RowResult {
    if |row| == 0 then Failed(PopFromEmptyList)
    else if |row| == 1 then Failed(IndexOutOfRange)
    else Converted(HeliosRow(userid, Strip(row[|row| - 1]), DisplayName(NameFields(row), userid)))
  }

  // ---------------------------------------------------------------------
  // Properties of one row
  // ---------------------------------------------------------------------

  /** A row with fewer than two fields is an error, never a fallback: an
      empty row fails at the pop, a one-field row at the index that follows. */
  lemma ShortRowsFail(row: seq<string>, userid: string)
    ensures ConvertedRow(row, userid).Failed? <==> |row| < 2
    ensures ConvertedRow(row, userid) == Failed(PopFromEmptyList) <==> |row| == 0
    ensures ConvertedRow(row, userid) == Failed(IndexOutOfRange) <==> |row| == 1
  {
  }

  /** A row of two or more fields is written with the given id, and its email
      is the last field stripped, untouched by the name cleanup. */
  lemma IdAndEmail(row: seq<string>, userid: string)
    requires |row| >= 2
    ensures ConvertedRow(row, userid).Converted?
    ensures ConvertedRow(row, userid).out.voterId == userid
    ensures ConvertedRow(row, userid).out.email == Strip(row[|row| - 1])
  {
  }

  /** Every field but the email becomes a name field; those before the last
      are only stripped. */
  lemma OtherNameFieldsOnlyStripped(row: seq<string>)
    requires |row| >= 2
    ensures |NameFields(row)| == |row| - 1
    ensures forall i :: 0 <= i < |row| - 2 ==> NameFields(row)[i] == Strip(row[i])
  {
  }

  /** The last name field holds no ',' and no '@'; it is a prefix of the
      stripped field, and when not blank it is the part before the first comma.
      It is blank exactly when that part is empty or holds an '@'. */
  lemma LastNameFieldCleaned(row: seq<string>)
    requires |row| >= 2
    ensures var last := NameFields(row)[|row| - 2];
      var f := Strip(row[|row| - 2]);
      && ',' !in last && '@' !in last
      && last <= f
      && (last == "" || last == Split(f, ',')[0])
      && (last == "" <==> Split(f, ',')[0] == "" || '@' in Split(f, ',')[0])
  {
    assert NameFields(row)[|row| - 2] == CleanLastNameField(Strip(row[|row| - 2]));
  }

  /** The fallback is taken exactly when every cleaned name field is empty. */
  lemma {:induction false} FallbackIffNamesBlank(row: seq<string>)
    requires |row| >= 2
    ensures UsesFallback(row) <==> forall j :: 0 <= j < |row| - 1 ==> NameFields(row)[j] == ""
  {
    var names := NameFields(row);
    assert AllWhitespace(" ");
    StripEmptyIffAllWhitespace(Join(names, " "));
    JoinAllWhitespace(names, " ");
    forall j | 0 <= j < |names|
      ensures AllWhitespace(names[j]) <==> names[j] == ""
    {
      if j < |names| - 1 {
        assert names[j] == Strip(row[j]);
      } else {
        var f := Strip(row[j]);
        assert names[j] == CleanLastNameField(f);
        if names[j] != "" {
          assert names[j][0] == f[0];
        }
      }
    }
  }

  /** The written name is never empty; the fallback name carries the same id
      that is written as the first field. */
  lemma NameNeverEmpty(row: seq<string>, userid: string)
    requires |row| >= 2
    ensures ConvertedRow(row, userid).out.name != ""
    ensures UsesFallback(row) ==> ConvertedRow(row, userid).out.name == FallbackPrefix + ConvertedRow(row, userid).out.voterId
  {
  }

  /** Outside the fallback, the name is the stripped space-join of the name
      fields and has no whitespace at either end. */
  lemma NonFallbackNameTrimmed(row: seq<string>, userid: string)
    requires |row| >= 2 && !UsesFallback(row)
    ensures ConvertedRow(row, userid).out.name == Strip(Join(NameFields(row), " "))
    ensures Trimmed(ConvertedRow(row, userid).out.name)
  {
  }

  /** With an id that is non-empty and free of whitespace (as a UUID in hex
      is), the fallback name is trimmed too, so every written name is. */
  lemma NameAlwaysTrimmed(row: seq<string>, userid: string)
    requires |row| >= 2
    requires userid != [] && forall i :: 0 <= i < |userid| ==> !IsWhitespace(userid[i])
    ensures Trimmed(ConvertedRow(row, userid).out.name)
  {
    var name := ConvertedRow(row, userid).out.name;
    if UsesFallback(row) {
      assert name == FallbackPrefix + userid;
      assert name[|name| - 1] == userid[|userid| - 1];
    }
  }

  /** Converting a row again with another id changes only the id, and the
      name only where it is the fallback. */
  lemma OnlyIdDependsOnId(row: seq<string>, id1: string, id2: string)
    ensures ConvertedRow(row, id1).Failed? <==> ConvertedRow(row, id2).Failed?
    ensures ConvertedRow(row, id1).Failed? ==> ConvertedRow(row, id1) == ConvertedRow(row, id2)
    ensures |row| >= 2 ==> ConvertedRow(row, id1).out.email == ConvertedRow(row, id2).out.email
    ensures |row| >= 2 && !UsesFallback(row) ==>
      ConvertedRow(row, id1).out.name == ConvertedRow(row, id2).out.name
  {
  }

  // ---------------------------------------------------------------------
  // The conversion as the script runs it
  // ---------------------------------------------------------------------

  /** Strips every field of a row, keeping their order. */
  method StripFields(row: seq<string>) returns (fields: seq<string>)
    ensures |fields| == |row|
    ensures forall i :: 0 <= i < |row| ==> fields[i] == Strip(row[i])
  {
    fields := [];
    for k := 0 to |row|
      invariant |fields| == k
      invariant forall i :: 0 <= i < k ==> fields[i] == Strip(row[i])
    {
      fields := fields + [Strip(row[k])];
    }
  }

  /** The name fields are the stripped fields without the email, the last
      one cleaned. */
  lemma NameFieldsOfStripped(row: seq<string>, stripped: seq<string>, names: seq<string>)
    requires |row| >= 2 && |stripped| == |row|
    requires forall i :: 0 <= i < |row| ==> stripped[i] == Strip(row[i])
    requires names == stripped[..|row| - 1]
    ensures NameFields(row) == names[|names| - 1 := CleanLastNameField(names[|names| - 1])]
  {
  }

  /** The comma and '@' cleanup of the last name field, done in place the way
      the script assigns `row[-1]` twice; the caller has already checked that
      a last field exists. */
  method CleanNameFields(fields: seq<string>) returns (names: seq<string>)
    requires |fields| >= 1
    ensures names == fields[|fields| - 1 := CleanLastNameField(fields[|fields| - 1])]
  {
    names := fields;
    var last := |names| - 1;
    if ',' in names[last] {
      names := names[last := Split(names[last], ',')[0]];
    }
    if '@' in names[last] {
      names := names[last := ""];
    }
  }

  /** Joins the name fields with spaces and strips the result, falling back on
      the voter's id when nothing is left. */
  method NameOf(names: seq<string>, userid: string) returns (name: string)
    ensures name == DisplayName(names, userid)
  {
    name := Strip(Join(names, " "));
    if name == "" {
      name := FallbackPrefix + userid;
    }
  }

  /** One pass of the loop body: strip every field, pop the email, clean the
      new last field, join the name and fall back when it is empty. */
  method ConvertRow(row: seq<string>, userid: string) returns (res: RowResult)
    ensures res == ConvertedRow(row, userid)
    ensures res.Failed? <==> |row| < 2
    ensures res.Converted? ==> res.out.voterId == userid
  {
    var fields := StripFields(row);
    ghost var stripped := fields;
    if |fields| == 0 {
      return Failed(PopFromEmptyList);
    }
    var email := fields[|fields| - 1];
    fields := fields[..|fields| - 1];
    if |fields| == 0 {
      return Failed(IndexOutOfRange);
    }
    assert email == Strip(row[|row| - 1]);
    NameFieldsOfStripped(row, stripped, fields);
    fields := CleanNameFields(fields);
    var name := NameOf(fields, userid);
    res := Converted(HeliosRow(userid, email, name));
  }

  /** The whole loop: rows are converted in order, ids[i] being the id drawn
      for row i, and each converted row is written before the next is read.
      A short row raises, which ends the run with the rows written so far. */
  method Convert(rows: seq<seq<string>>, ids: seq<string>) returns (written: seq<HeliosRow>, outcome: Outcome)
    requires |ids| >= |rows|
    ensures |written| <= |rows|
    ensures forall i :: 0 <= i < |written| ==> ConvertedRow(rows[i], ids[i]) == Converted(written[i])
    ensures forall i :: 0 <= i < |written| ==> written[i].voterId == ids[i]
    ensures outcome == Completed ==> |written| == |rows|
    ensures outcome.Aborted? ==>
      |written| < |rows| && ConvertedRow(rows[|written|], ids[|written|]) == Failed(outcome.error)
    ensures outcome == Completed <==> forall i :: 0 <= i < |rows| ==> |rows[i]| >= 2
  {
    written := [];
    var k := 0;
    while k < |rows|
      invariant k <= |rows| && |written| == k
      invariant forall i :: 0 <= i < k ==> ConvertedRow(rows[i], ids[i]) == Converted(written[i])
      invariant forall i :: 0 <= i < k ==> written[i].voterId == ids[i]
      invariant forall i :: 0 <= i < k ==> |rows[i]| >= 2
    {
      var res := ConvertRow(rows[k], ids[k]);
      if res.Failed? {
        return written, Aborted(res.error);
      }
      written := written + [res.out];
      k := k + 1;
    }
    outcome := Completed;
  }

  // ---------------------------------------------------------------------
  // Typical rows
  // ---------------------------------------------------------------------

  /** A name field as the export has it once stripped: not blank, no padding. */
  predicate PlainField(f: string) {
    f != "" && Trimmed(f)
  }

  /** The space-join of two plain fields is its own strip. */
  lemma JoinPlainPair(first: string, last: string)
    requires PlainField(first) && PlainField(last)
    ensures Join([first, last], " ") == first + " " + last
    ensures Strip(first + " " + last) == first + " " + last
  {
    var j := first + " " + last;
    assert j[0] == first[0] && j[|j| - 1] == last[|last| - 1];
    StripTrimmed(j);
  }

  /** A "Lastname, suffix" field keeps only the part before the comma, like
      ["Jane", "Doe, Jr.", "jane@example.com"] giving the name "Jane Doe". */
  lemma SuffixAfterCommaDropped(first: string, field: string, last: string, suffix: string, email: string, userid: string)
    requires PlainField(first) && PlainField(last) && ',' !in last && '@' !in last
    requires field == last + [','] + suffix
    requires suffix == "" || !IsWhitespace(suffix[|suffix| - 1])
    requires Trimmed(email)
    ensures ConvertedRow([first, field, email], userid)
      == Converted(HeliosRow(userid, email, first + " " + last))
  {
    var row := [first, field, email];
    assert field[0] == last[0] && field[|field| - 1] == if suffix == "" then ',' else suffix[|suffix| - 1];
    StripTrimmed(first);
    StripTrimmed(field);
    StripTrimmed(email);
    SplitAfterPiece(last, suffix, ',');
    assert ',' in field by { assert field[|last|] == ','; }
    assert CleanLastNameField(field) == last;
    assert NameFields(row) == [first, last];
    JoinPlainPair(first, last);
  }

  /** An address standing in the last name column is blanked there, like
      ["Jane", "jane@example.com", "jane@example.com"] giving the name "Jane". */
  lemma EmailInNameColumnBlanked(first: string, address: string, email: string, userid: string)
    requires PlainField(first) && Trimmed(address) && '@' in address && ',' !in address
    requires Trimmed(email)
    ensures ConvertedRow([first, address, email], userid)
      == Converted(HeliosRow(userid, email, first))
  {
    var row := [first, address, email];
    StripTrimmed(first);
    StripTrimmed(address);
    StripTrimmed(email);
    SplitNoSeparator(address, ',');
    assert CleanLastNameField(address) == "";
    assert NameFields(row) == [first, ""];
    var j := first + " ";
    assert Join([first, ""], " ") == j;
    assert j[..|first|] == first;
    assert Strip(j) == Strip(first);
    StripTrimmed(first);
  }

  /** Padding around every field is removed before anything else, like
      [" Jane ", " Doe ", " jane@example.com "] giving "Jane Doe" and
      "jane@example.com". */
  lemma PaddingRemoved(row: seq<string>, first: string, last: string, email: string, userid: string)
    requires PlainField(first) && PlainField(last) && ',' !in last && '@' !in last
    requires PlainField(email)
    requires row == [" " + first + " ", " " + last + " ", " " + email + " "]
    ensures ConvertedRow(row, userid) == Converted(HeliosRow(userid, email, first + " " + last))
  {
    StripPadded(first);
    StripPadded(last);
    StripPadded(email);
    SplitNoSeparator(last, ',');
    assert CleanLastNameField(last) == last;
    assert NameFields(row) == [first, last];
    JoinPlainPair(first, last);
  }

  /** A blank name column gives the fallback name with the row's own id, like
      ["  ", ""] giving "PSF Voter " followed by that id. */
  lemma BlankNameGetsFallback(blank: string, email: string, userid: string)
    requires AllWhitespace(blank)
    ensures ConvertedRow([blank, email], userid)
      == Converted(HeliosRow(userid, Strip(email), FallbackPrefix + userid))
  {
    var row := [blank, email];
    StripEmptyIffAllWhitespace(blank);
    assert NameFields(row) == [""];
  }

  // ---------------------------------------------------------------------
  // Worked rows
  // ---------------------------------------------------------------------

  /** The ", Jr." after the last name is cut off. */
  lemma CommaTruncationExample(userid: string)
    ensures ConvertedRow(["Jane", "Doe, Jr.", "jane@example.com"], userid)
      == Converted(HeliosRow(userid, "jane@example.com", "Jane Doe"))
  {
    assert "Doe, Jr." == "Doe" + [','] + " Jr.";
    assert "Jane" + " " + "Doe" == "Jane Doe";
    SuffixAfterCommaDropped("Jane", "Doe, Jr.", "Doe", " Jr.", "jane@example.com", userid);
  }

  /** The address repeated in the last name column is blanked. */
  lemma MisplacedEmailExample(userid: string)
    ensures ConvertedRow(["Jane", "jane@example.com", "jane@example.com"], userid)
      == Converted(HeliosRow(userid, "jane@example.com", "Jane"))
  {
    assert "jane@example.com"[4] == '@';
    EmailInNameColumnBlanked("Jane", "jane@example.com", "jane@example.com", userid);
  }

  /** The padding around every field is stripped. */
  lemma WhitespaceExample(userid: string)
    ensures ConvertedRow([" Jane ", " Doe ", " jane@example.com "], userid)
      == Converted(HeliosRow(userid, "jane@example.com", "Jane Doe"))
  {
    assert " " + "Jane" + " " == " Jane " && " " + "Doe" + " " == " Doe ";
    assert " " + "jane@example.com" + " " == " jane@example.com ";
    assert "Jane" + " " + "Doe" == "Jane Doe";
    PaddingRemoved([" Jane ", " Doe ", " jane@example.com "], "Jane", "Doe", "jane@example.com", userid);
  }

  /** A blank name and a blank email give the fallback name. */
  lemma FallbackExample(userid: string)
    ensures ConvertedRow(["  ", ""], userid) == Converted(HeliosRow(userid, "", FallbackPrefix + userid))
  {
    BlankNameGetsFallback("  ", "", userid);
  }
}
