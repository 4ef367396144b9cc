/** The tier list as the Python scripts pass it around: a dictionary from a
    tier letter to the ranked names of that tier.  Python dictionaries keep
    insertion order and assigning to an existing key keeps its position, so
    the dictionary is a sequence of rows with distinct letters. */
module TierLists {
  import opened Text

  datatype Tier = Tier(letter: char, games: seq<string>)

  type TierList = seq<Tier>

  /** The letters of the rows, in dictionary order. */
  function Letters(tl: TierList): (r: seq<char>)
    ensures |r| == |tl|
    ensures forall i :: 0 <= i < |tl| ==> r[i] == tl[i].letter
  {
    if tl == [] then [] else [tl[0].letter] + Letters(tl[1..])
  }

  /** No letter occurs twice: what a dictionary guarantees. */
  predicate UniqueLetters(tl: TierList) {
    forall i, j :: 0 <= i < j < |tl| ==> tl[i].letter != tl[j].letter
  }

  /** `tiers.get(c)`. */
  function Get(tl: TierList, c: char): (r: Option<seq<string>>)
    ensures r.None? <==> c !in Letters(tl)
    ensures r.Some? ==> Tier(c, r.value) in tl
  {
    if tl == [] then None
    else if tl[0].letter == c then Some(tl[0].games)
    else
      Get(tl[1..], c)
  }

  /** In a dictionary the row holding a letter is the only one. */
  lemma GetUnique(tl: TierList, i: nat)
    requires UniqueLetters(tl) && i < |tl|
    ensures Get(tl, tl[i].letter) == Some(tl[i].games)
  {
    if i > 0 {
      assert UniqueLetters(tl[1..]);
      GetUnique(tl[1..], i - 1);
    }
  }

  /** `tiers[c] = g`: an existing row is overwritten where it stands, a new
      letter is appended. */
  function Put(tl: TierList, c: char, g: seq<string>): (r: TierList)
    ensures |tl| <= |r| <= |tl| + 1
  {
    if tl == [] then [Tier(c, g)]
    else if tl[0].letter == c then [Tier(c, g)] + tl[1..]
    else [tl[0]] + Put(tl[1..], c, g)
  }

  /** After the assignment the letter holds the new names and every other
      letter what it held before. */
  lemma {:induction false} PutGet(tl: TierList, c: char, g: seq<string>, d: char)
    ensures Get(Put(tl, c, g), d) == if d == c then Some(g) else Get(tl, d)
  {
    if tl != [] && tl[0].letter != c {
      PutGet(tl[1..], c, g, d);
      assert Put(tl, c, g)[1..] == Put(tl[1..], c, g);
    }
  }

  /** The assignment keeps the order of the letters and appends a new one. */
  lemma {:induction false} PutLetters(tl: TierList, c: char, g: seq<string>)
    ensures Letters(Put(tl, c, g)) == if c in Letters(tl) then Letters(tl) else Letters(tl) + [c]
  {
    if tl != [] && tl[0].letter != c {
      PutLetters(tl[1..], c, g);
      assert Put(tl, c, g)[1..] == Put(tl[1..], c, g);
    }
  }

  /** Every row after an assignment is an old row or the new one. */
  lemma {:induction false} PutRows(tl: TierList, c: char, g: seq<string>)
    ensures forall t :: t in Put(tl, c, g) ==> t in tl || t == Tier(c, g)
  {
    if tl != [] && tl[0].letter != c {
      PutRows(tl[1..], c, g);
    }
  }

  /** Assignment keeps the letters distinct. */
  lemma PutUnique(tl: TierList, c: char, g: seq<string>)
    requires UniqueLetters(tl)
    ensures UniqueLetters(Put(tl, c, g))
  {
    var r := Put(tl, c, g);
    PutLetters(tl, c, g);
    forall i, j | 0 <= i < j < |r| ensures r[i].letter != r[j].letter {
      assert Letters(r)[i] == r[i].letter && Letters(r)[j] == r[j].letter;
    }
  }

  /** A dictionary built by assigning the rows one after another, starting
      from the empty one. */
  function AssignAll(rows: seq<Tier>): TierList
  {
    if rows == [] then []
    else
      var t := rows[|rows| - 1];
      Put(AssignAll(rows[..|rows| - 1]), t.letter, t.games)
  }

  lemma {:induction false} AssignAllUnique(rows: seq<Tier>)
    ensures UniqueLetters(AssignAll(rows))
  {
    if rows != [] {
      var t := rows[|rows| - 1];
      AssignAllUnique(rows[..|rows| - 1]);
      PutUnique(AssignAll(rows[..|rows| - 1]), t.letter, t.games);
    }
  }

  /** Every row of the result was assigned. */
  lemma {:induction false} AssignAllRows(rows: seq<Tier>)
    ensures forall t :: t in AssignAll(rows) ==> t in rows
  {
    if rows != [] {
      var t := rows[|rows| - 1];
      var init := rows[..|rows| - 1];
      AssignAllRows(init);
      PutRows(AssignAll(init), t.letter, t.games);
      assert forall u :: u in init ==> u in rows;
    }
  }

  /** A letter is present exactly when some row assigns it. */
  lemma {:induction false} AssignAllLetters(rows: seq<Tier>, c: char)
    ensures Get(AssignAll(rows), c).Some? <==> exists i :: 0 <= i < |rows| && rows[i].letter == c
  {
    if rows != [] {
      var last := |rows| - 1;
      var init := rows[..last];
      PutGet(AssignAll(init), rows[last].letter, rows[last].games, c);
      AssignAllLetters(init, c);
      if exists i :: 0 <= i < |rows| && rows[i].letter == c {
        var i :| 0 <= i < |rows| && rows[i].letter == c;
        if i < last {
          assert init[i] == rows[i];
        }
      }
      if exists i :: 0 <= i < |init| && init[i].letter == c {
        var i :| 0 <= i < |init| && init[i].letter == c;
        assert init[i] == rows[i];
      }
    }
  }

  /** A letter holds what the last row assigning it holds: a repeated letter
      replaces the earlier list. */
  lemma {:induction false} AssignAllLastWins(rows: seq<Tier>, i: nat)
    requires i < |rows|
    requires forall j :: i < j < |rows| ==> rows[j].letter != rows[i].letter
    ensures Get(AssignAll(rows), rows[i].letter) == Some(rows[i].games)
  {
    var last := |rows| - 1;
    var init := rows[..last];
    AssignAllSnoc(rows);
    PutGet(AssignAll(init), rows[last].letter, rows[last].games, rows[i].letter);
    if i < last {
      forall j | i < j < |init| ensures init[j].letter != init[i].letter {
        assert init[j] == rows[j] && init[i] == rows[i];
      }
      AssignAllLastWins(init, i);
      assert init[i] == rows[i];
    }
  }

  /** The last row is assigned last. */
  lemma AssignAllSnoc(rows: seq<Tier>)
    requires rows != []
    ensures AssignAll(rows) ==
      Put(AssignAll(rows[..|rows| - 1]), rows[|rows| - 1].letter, rows[|rows| - 1].games)
  {
  }

  /** All names of all tiers, row by row: the `all_tier_games` list. */
  function AllGames(tl: TierList): (r: seq<string>)
    ensures forall i, n :: 0 <= i < |tl| && n in tl[i].games ==> n in r
    ensures forall n :: n in r ==> exists i :: 0 <= i < |tl| && n in tl[i].games
  {
    if tl == [] then []
    else
      var rest := AllGames(tl[1..]);
      assert forall n :: n in rest ==> exists i :: 1 <= i < |tl| && n in tl[i].games by {
        forall n | n in rest ensures exists i :: 1 <= i < |tl| && n in tl[i].games {
          var i :| 0 <= i < |tl[1..]| && n in tl[1..][i].games;
          assert tl[i + 1] == tl[1..][i];
        }
      }
      tl[0].games + rest
  }
}
