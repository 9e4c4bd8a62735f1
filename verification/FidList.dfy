/** The fid-list query parameter (`createFidListString`): an opening
    parenthesis, then each held row's fid followed by ", ", then a closing
    parenthesis.  The separator is written after every fid, the last one
    included.  `ParseFidList` is the reference reader used to show that the
    string carries exactly the held fids in order.
 */
module FidList {
  import opened Wrappers
  import opened Decimal
  import opened AppTypes

  const Separator: string := ", "

  /** The fids of the rows, in row order. */
  function Fids(rows: seq<Row>): seq<int>
  {
    seq(|rows|, i requires 0 <= i < |rows| => rows[i].fid)
  }

  /** The text the loop adds for one row. */
  function FidItem(fid: int): string
  {
    IntToString(fid) + Separator
  }

  /** The text between the parentheses. */
  function Items(rows: seq<Row>): string
    decreases |rows|
  {
    if |rows| == 0 then "" else FidItem(rows[0].fid) + Items(rows[1..])
  }

  /** `createFidListString` over the held rows. */
  function CreateFidListString(rows: seq<Row>): (s: string)
    ensures |s| >= 2 && s[0] == '(' && s[|s| - 1] == ')'
    ensures s == "()" <==> rows == []
    ensures rows != [] ==> |s| >= 5 && s[|s| - 3..] == ", )"
  {
    var items := Items(rows);
    assert rows != [] ==> |items| >= 3 && items[|items| - 2..] == Separator by {
      if rows != [] {
        ItemsEndWithSeparator(rows);
      }
    }
    "(" + items + ")"
  }

  lemma {:induction false} ItemsEndWithSeparator(rows: seq<Row>)
    requires rows != []
    ensures |Items(rows)| >= 3 && Items(rows)[|Items(rows)| - 2..] == Separator
    decreases |rows|
  {
    if |rows| > 1 {
      ItemsEndWithSeparator(rows[1..]);
    }
  }

  /** The source's loop appends one item per row at the end: building the
      items front to back or appending them one at a time agree. */
  lemma {:induction false} ItemsSnoc(rows: seq<Row>, row: Row)
    ensures Items(rows + [row]) == Items(rows) + FidItem(row.fid)
    decreases |rows|
  {
    if |rows| == 0 {
      assert ([] + [row])[1..] == [];
    } else {
      assert (rows + [row])[1..] == rows[1..] + [row];
      ItemsSnoc(rows[1..], row);
    }
  }

  /** Position of the first ',' in `s`, or |s| when there is none. */
  function IndexOfComma(s: string): (k: nat)
    ensures k <= |s|
    ensures k < |s| ==> s[k] == ','
    ensures forall j :: 0 <= j < k ==> s[j] != ','
    decreases |s|
  {
    if |s| == 0 then 0
    else if s[0] == ',' then 0
    else 1 + IndexOfComma(s[1..])
  }

  /** Reads a sequence of items, each an integer followed by ", ". */
  function ParseItems(s: string): Option<seq<int>>
    decreases |s|
  {
    if |s| == 0 then Some([])
    else
      var k := IndexOfComma(s);
      if k + 1 >= |s| || s[k + 1] != ' ' then None
      else
        match ParseInt(s[..k])
        case None => None
        case Some(fid) =>
          match ParseItems(s[k + 2..])
          case None => None
          case Some(fids) => Some([fid] + fids)
  }

  /** Reads a fid-list parameter back into its fids. */
  function ParseFidList(s: string): Option<seq<int>>
  {
    if |s| >= 2 && s[0] == '(' && s[|s| - 1] == ')' then ParseItems(s[1..|s| - 1]) else None
  }

  lemma CommaAfterNumber(fid: int, rest: string)
    ensures IndexOfComma(IntToString(fid) + Separator + rest) == |IntToString(fid)|
  {
    var digits := IntToString(fid);
    var s := digits + Separator + rest;
    NoCommaInNumber(fid);
    assert forall j :: 0 <= j < |digits| ==> s[j] == digits[j];
    assert s[|digits|] == ',';
  }

  lemma NoCommaInNumber(fid: int)
    ensures forall j :: 0 <= j < |IntToString(fid)| ==> IntToString(fid)[j] != ','
  {
    var s := IntToString(fid);
    if fid < 0 {
      forall j | 0 <= j < |s| ensures s[j] != ',' {
        if j > 0 {
          assert s[j] == s[1..][j - 1];
        }
      }
    }
  }

  lemma {:induction false} ItemsRoundTrip(rows: seq<Row>)
    ensures ParseItems(Items(rows)) == Some(Fids(rows))
    decreases |rows|
  {
    if |rows| > 0 {
      var digits := IntToString(rows[0].fid);
      var rest := Items(rows[1..]);
      var s := Items(rows);
      assert s == digits + Separator + rest;
      CommaAfterNumber(rows[0].fid, rest);
      assert s[..|digits|] == digits;
      assert s[|digits| + 2..] == rest;
      assert s[|digits| + 1] == ' ';
      IntRoundTrip(rows[0].fid);
      ItemsRoundTrip(rows[1..]);
      assert ParseItems(s) == Some([rows[0].fid] + Fids(rows[1..]));
      assert Fids(rows) == [rows[0].fid] + Fids(rows[1..]);
    } else {
      assert Fids(rows) == [];
    }
  }

  /** The parameter string carries exactly the held fids, in row order:
      reading it back gives them all, so no fid is lost or reordered. */
  lemma FidListRoundTrip(rows: seq<Row>)
    ensures ParseFidList(CreateFidListString(rows)) == Some(Fids(rows))
  {
    var s := CreateFidListString(rows);
    assert s[1..|s| - 1] == Items(rows);
    ItemsRoundTrip(rows);
  }
}
