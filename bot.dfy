/** The bot that replays a found path: its position, its move counter and its trail (model.js). */
module Bots {
  class Bot {
    var i: int
    var j: int
    var counter: nat
    var path: seq<(int, int)>

    /** The counter counts the moves recorded in the trail. */
    ghost predicate Valid()
      reads this
    {
      counter == |path|
    }

    constructor ()
      ensures Valid()
      ensures i == 0 && j == 0 && counter == 0 && path == []
    {
      i, j := 0, 0;
      counter := 0;
      path := [];
    }

    /** One move: the bot stands on (i, j), one more move is counted and (i, j) ends the trail. */
    method Move(i': int, j': int)
      requires Valid()
      modifies this
      ensures Valid()
      ensures i == i' && j == j'
      ensures counter == old(counter) + 1
      ensures path == old(path) + [(i', j')]
    {
      i, j := i', j';
      counter := counter + 1;
      path := path + [(i', j')];
    }

    method GetCounter() returns (c: nat)
      requires Valid()
      ensures c == counter && c == |path|
    {
      c := counter;
    }

    method GetPath() returns (p: seq<(int, int)>)
      ensures p == path
    {
      p := path;
    }

    /** Back to the start cell with no moves and an empty trail. */
    method Reset()
      modifies this
      ensures Valid()
      ensures i == 0 && j == 0 && counter == 0 && path == []
    {
      i, j := 0, 0;
      counter := 0;
      path := [];
    }
  }
}
