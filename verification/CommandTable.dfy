/** Command dispatch of the shells: a typed word stands for any table word it begins. */
module CommandTable {

  /** The C library's substring search: the first place where `w` occurs in `s`. */
  datatype Place = NotFound | At(index: nat)

  predicate OccursAt(s: string, w: string, i: nat) {
    i + |w| <= |s| && s[i..i + |w|] == w
  }

  function StrStr(s: string, w: string, from: nat): Place
    decreases |s| - from
  {
    if from > |s| then NotFound
    else if OccursAt(s, w, from) then At(from)
    else StrStr(s, w, from + 1)
  }

  /** A search that finds the word at the very start is a prefix test. */
  lemma {:induction false} StrStrAtStart(s: string, w: string)
    ensures StrStr(s, w, 0) == At(0) <==> w <= s
  {
    StrStrFrom(s, w, 1);
  }

  lemma {:induction false} StrStrFrom(s: string, w: string, from: nat)
    ensures StrStr(s, w, from).At? ==> StrStr(s, w, from).index >= from
    decreases |s| - from
  {
    if from <= |s| && !OccursAt(s, w, from) {
      StrStrFrom(s, w, from + 1);
    }
  }

  type Row = seq<string>

  /** The first `n` words of a row each begin with the word typed in their place. */
  ghost predicate Agrees(row: Row, typed: seq<string>, n: nat)
    requires n <= |row| && n <= |typed|
  {
    forall i :: 0 <= i < n ==> typed[i] <= row[i]
  }

  ghost predicate Matches(row: Row, typed: seq<string>) {
    |row| <= |typed| && Agrees(row, typed, |row|)
  }

  /** All that was typed fits the row, but the row goes on. */
  ghost predicate TooShortFor(row: Row, typed: seq<string>) {
    |typed| < |row| && Agrees(row, typed, |typed|)
  }

  datatype Dispatch = Runs(row: nat, rest: seq<string>) | ParseError(tooFew: bool)

  /** The earliest matching row runs, with the untouched rest of the words; failing that, an
      error tells whether more words might have helped. */
  ghost predicate Dispatched(table: seq<Row>, typed: seq<string>, d: Dispatch) {
    match d
    case Runs(row, rest) =>
      && row < |table| && Matches(table[row], typed) && rest == typed[|table[row]|..]
      && forall r :: 0 <= r < row ==> !Matches(table[r], typed)
    case ParseError(tooFew) =>
      && (forall r :: 0 <= r < |table| ==> !Matches(table[r], typed))
      && (tooFew <==> exists r :: 0 <= r < |table| && TooShortFor(table[r], typed))
  }

  /** The command line of the base shell. The inner loop ends on the end of the row, on the
      end of the typed words, or on a word that does not fit. */
  method ParseCommand(table: seq<Row>, typed: seq<string>) returns (d: Dispatch)
    ensures Dispatched(table, typed, d)
  {
    var tooFew := false;
    for icmd := 0 to |table|
      invariant forall r :: 0 <= r < icmd ==> !Matches(table[r], typed)
      invariant tooFew <==> exists r :: 0 <= r < icmd && TooShortFor(table[r], typed)
    {
      var row := table[icmd];
      var iarg := 0;
      while iarg <= |typed|
        invariant iarg <= |row| && iarg <= |typed| && Agrees(row, typed, iarg)
      {
        if iarg == |row| {
          return Runs(icmd, typed[iarg..]);
        }
        if iarg == |typed| {
          tooFew := true;
          break;
        }
        StrStrAtStart(row[iarg], typed[iarg]);
        if StrStr(row[iarg], typed[iarg], 0) != At(0) {
          break;
        }
        iarg := iarg + 1;
      }
      assert iarg < |typed| ==> !Matches(row, typed) && !TooShortFor(row, typed);
      assert iarg == |typed| ==> TooShortFor(row, typed) && !Matches(row, typed);
    }
    return ParseError(tooFew);
  }

  /** The answer is determined: one table and one line of words have one outcome. */
  lemma DispatchedOnce(table: seq<Row>, typed: seq<string>, d: Dispatch, e: Dispatch)
    requires Dispatched(table, typed, d) && Dispatched(table, typed, e)
    ensures d == e
  {
    if d.Runs? && e.Runs? {
      assert !(d.row < e.row) && !(e.row < d.row);
    }
  }

  /** The words typed are the row's own words, each possibly cut short. */
  ghost predicate Abbreviates(typed: seq<string>, row: seq<string>) {
    && |typed| == |row|
    && forall i :: 0 <= i < |row| ==> |typed[i]| <= |row[i]| && typed[i] == row[i][..|typed[i]|]
  }

  /** What runs, in those terms: the first row abbreviated by as many words as it has. Failing
      that, more words are asked for exactly when all those typed abbreviate the beginning of
      a longer row. */
  lemma RunsFirstAbbreviated(table: seq<Row>, typed: seq<string>, d: Dispatch)
    requires Dispatched(table, typed, d)
    ensures d.Runs? ==>
              && d.row < |table| && |table[d.row]| <= |typed|
              && Abbreviates(typed[..|table[d.row]|], table[d.row]) && d.rest == typed[|table[d.row]|..]
    ensures forall r :: 0 <= r < (if d.Runs? then d.row else |table|) && |table[r]| <= |typed| ==>
              !Abbreviates(typed[..|table[r]|], table[r])
    ensures d.ParseError? ==>
              (d.tooFew <==> exists r :: 0 <= r < |table| && |typed| < |table[r]| && Abbreviates(typed, table[r][..|typed|]))
  {
    forall r | 0 <= r < |table| && |table[r]| <= |typed|
      ensures Abbreviates(typed[..|table[r]|], table[r]) <==> Matches(table[r], typed)
    {
      AbbreviatesIff(typed, table[r], |table[r]|);
      assert table[r][..|table[r]|] == table[r];
    }
    forall r | 0 <= r < |table| && |typed| < |table[r]|
      ensures Abbreviates(typed, table[r][..|typed|]) <==> TooShortFor(table[r], typed)
    {
      AbbreviatesIff(typed, table[r], |typed|);
      assert typed[..|typed|] == typed;
    }
    hide Abbreviates, Matches, TooShortFor;
    forall r | 0 <= r < |table|
      ensures TooShortFor(table[r], typed) <==> |typed| < |table[r]| && Abbreviates(typed, table[r][..|typed|])
    {
      ShortIsShort(table[r], typed);
    }
  }

  lemma ShortIsShort(row: Row, typed: seq<string>)
    ensures TooShortFor(row, typed) ==> |typed| < |row|
  {
  }

  lemma AbbreviatesIff(typed: seq<string>, row: Row, n: nat)
    requires n <= |typed| && n <= |row|
    ensures Abbreviates(typed[..n], row[..n]) <==> Agrees(row, typed, n)
  {
    forall i | 0 <= i < n
      ensures typed[i] <= row[i] <==> |typed[i]| <= |row[i]| && typed[i] == row[i][..|typed[i]|]
    {
    }
    assert forall i :: 0 <= i < n ==> typed[..n][i] == typed[i] && row[..n][i] == row[i];
  }
}
