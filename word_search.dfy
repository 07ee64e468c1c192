/** Algorithms/Backtracking/WordSearch.java: does some path of distinct,
    horizontally or vertically adjacent cells of the board spell the word?
    A depth-first search from every cell, marking the cells of the current
    path in `visited` and clearing them on the way back. */
module WordSearch {

  type Cell = (int, int)

  predicate InBounds(board: array2<char>, p: Cell)
  {
    0 <= p.0 < board.Length0 && 0 <= p.1 < board.Length1
  }

  /** `a` and `b` share a side. */
  predicate Adjacent(a: Cell, b: Cell)
  {
    (a.0 == b.0 && (a.1 == b.1 + 1 || b.1 == a.1 + 1)) ||
    (a.1 == b.1 && (a.0 == b.0 + 1 || b.0 == a.0 + 1))
  }

  /** `p` spells `word[index..]` from `(row, col)`: its cells lie on the
      board, carry the letters of the word in order, follow each other
      side by side, are pairwise distinct and avoid the cells in `used`. */
  predicate Path(board: array2<char>, word: string, index: nat, row: int, col: int,
                 used: set<Cell>, p: seq<Cell>)
    reads board
    requires index <= |word|
  {
    |p| == |word| - index &&
    (|p| > 0 ==> p[0] == (row, col)) &&
    (forall k :: 0 <= k < |p| ==>
       InBounds(board, p[k]) && p[k] !in used && board[p[k].0, p[k].1] == word[index + k]) &&
    (forall k :: 0 <= k < |p| - 1 ==> Adjacent(p[k], p[k + 1])) &&
    (forall j, k :: 0 <= j < k < |p| ==> p[j] != p[k])
  }

  /** What `backtrack(board, word, row, col, index, visited)` returns when
      the cells marked in `visited` are `used`: the rest of the word is
      empty, or the cell is on the board, unmarked and carries the next
      letter, and the search goes on down, up, right or left. */
  predicate Search(board: array2<char>, word: string, row: int, col: int, index: nat, used: set<Cell>)
    reads board
    requires index <= |word|
    decreases |word| - index
  {
    if index == |word| then true
    else if !InBounds(board, (row, col)) || (row, col) in used || board[row, col] != word[index] then false
    else
      var marked := used + {(row, col)};
      Search(board, word, row + 1, col, index + 1, marked) ||
      Search(board, word, row - 1, col, index + 1, marked) ||
      Search(board, word, row, col + 1, index + 1, marked) ||
      Search(board, word, row, col - 1, index + 1, marked)
  }

  /** A path from a neighbour of `(row, col)`, avoiding `(row, col)`,
      extends to a path from `(row, col)`. */
  lemma Extend(board: array2<char>, word: string, index: nat, row: int, col: int,
               used: set<Cell>, next: Cell, q: seq<Cell>)
    requires index < |word|
    requires InBounds(board, (row, col)) && (row, col) !in used && board[row, col] == word[index]
    requires Adjacent((row, col), next)
    requires Path(board, word, index + 1, next.0, next.1, used + {(row, col)}, q)
    ensures Path(board, word, index, row, col, used, [(row, col)] + q)
  {
    var p := [(row, col)] + q;
    forall k | 0 <= k < |p|
      ensures InBounds(board, p[k]) && p[k] !in used && board[p[k].0, p[k].1] == word[index + k]
    {
      if k > 0 {
        assert p[k] == q[k - 1];
      }
    }
    forall k | 0 <= k < |p| - 1 ensures Adjacent(p[k], p[k + 1]) {
      if k > 0 {
        assert p[k] == q[k - 1] && p[k + 1] == q[k];
      }
    }
    forall j, k | 0 <= j < k < |p| ensures p[j] != p[k] {
      assert p[k] == q[k - 1] && p[k] !in used + {(row, col)};
      if j > 0 {
        assert p[j] == q[j - 1];
      }
    }
  }

  /** Soundness: a successful search has a path that spells the rest of
      the word. */
  lemma {:induction false} SearchSound(board: array2<char>, word: string, row: int, col: int,
                                       index: nat, used: set<Cell>)
    requires index <= |word| && Search(board, word, row, col, index, used)
    ensures exists p :: Path(board, word, index, row, col, used, p)
    decreases |word| - index
  {
    if index == |word| {
      assert Path(board, word, index, row, col, used, []);
    } else {
      var marked := used + {(row, col)};
      var next: Cell;
      if Search(board, word, row + 1, col, index + 1, marked) {
        next := (row + 1, col);
      } else if Search(board, word, row - 1, col, index + 1, marked) {
        next := (row - 1, col);
      } else if Search(board, word, row, col + 1, index + 1, marked) {
        next := (row, col + 1);
      } else {
        next := (row, col - 1);
      }
      SearchSound(board, word, next.0, next.1, index + 1, marked);
      var q :| Path(board, word, index + 1, next.0, next.1, marked, q);
      Extend(board, word, index, row, col, used, next, q);
    }
  }

  /** Dropping the first cell of a path leaves a path from its second
      cell that avoids the first one. */
  lemma Shorten(board: array2<char>, word: string, index: nat, row: int, col: int,
                used: set<Cell>, p: seq<Cell>)
    requires index < |word| && Path(board, word, index, row, col, used, p) && |p| > 1
    ensures Path(board, word, index + 1, p[1].0, p[1].1, used + {(row, col)}, p[1..])
  {
    var q := p[1..];
    forall k | 0 <= k < |q|
      ensures InBounds(board, q[k]) && q[k] !in used + {(row, col)} &&
              board[q[k].0, q[k].1] == word[index + 1 + k]
    {
      assert q[k] == p[k + 1] && p[0] != p[k + 1];
    }
    forall k | 0 <= k < |q| - 1 ensures Adjacent(q[k], q[k + 1]) {
      assert q[k] == p[k + 1] && q[k + 1] == p[k + 2];
    }
  }

  /** Completeness: when a path spells the rest of the word, the search
      succeeds. */
  lemma {:induction false} SearchComplete(board: array2<char>, word: string, row: int, col: int,
                                          index: nat, used: set<Cell>, p: seq<Cell>)
    requires index <= |word| && Path(board, word, index, row, col, used, p)
    ensures Search(board, word, row, col, index, used)
    decreases |word| - index
  {
    if index < |word| {
      assert p[0] == (row, col) && InBounds(board, p[0]);
      var marked := used + {(row, col)};
      if |p| == 1 {
        assert Search(board, word, row + 1, col, index + 1, marked);
      } else {
        Shorten(board, word, index, row, col, used, p);
        SearchComplete(board, word, p[1].0, p[1].1, index + 1, marked, p[1..]);
        assert Adjacent(p[0], p[1]);
      }
    }
  }

  /** `backtrack(board, word, row, col, index, visited)`: `used` is the set
      of cells marked in `visited`; the marks are the same again on
      return. */
  method Backtrack(board: array2<char>, word: string, row: int, col: int, index: nat,
                   visited: array2<bool>, ghost used: set<Cell>) returns (found: bool)
    requires index <= |word|
    requires visited.Length0 == board.Length0 && visited.Length1 == board.Length1
    requires forall r, c :: 0 <= r < visited.Length0 && 0 <= c < visited.Length1 ==>
               (visited[r, c] <==> (r, c) in used)
    modifies visited
    ensures found == Search(board, word, row, col, index, used)
    ensures forall r, c :: 0 <= r < visited.Length0 && 0 <= c < visited.Length1 ==>
              visited[r, c] == old(visited[r, c])
    decreases |word| - index
  {
    if index == |word| {
      return true;
    }
    if row < 0 || col < 0 || row >= board.Length0 || col >= board.Length1 ||
       visited[row, col] || board[row, col] != word[index] {
      return false;
    }
    visited[row, col] := true;
    ghost var marked := used + {(row, col)};
    found := Backtrack(board, word, row + 1, col, index + 1, visited, marked);
    if !found {
      found := Backtrack(board, word, row - 1, col, index + 1, visited, marked);
    }
    if !found {
      found := Backtrack(board, word, row, col + 1, index + 1, visited, marked);
    }
    if !found {
      found := Backtrack(board, word, row, col - 1, index + 1, visited, marked);
    }
    visited[row, col] := false;
  }

  /** `exist(board, word)`: true exactly when a path of distinct, side by
      side cells of the board spells `word`. `board[0]` is read, so the
      board has a row; an empty word is found whenever the board has a
      cell. */
  method Exist(board: array2<char>, word: string) returns (found: bool)
    requires board.Length0 > 0
    ensures found <==> exists r, c, p :: 0 <= r < board.Length0 && 0 <= c < board.Length1 &&
                                         Path(board, word, 0, r, c, {}, p)
    ensures word == [] ==> (found <==> board.Length1 > 0)
  {
    var m := board.Length0;
    var n := board.Length1;
    var visited := new bool[m, n]((_, _) => false);
    found := false;
    for row := 0 to m
      invariant forall r, c :: 0 <= r < m && 0 <= c < n ==> !visited[r, c]
      invariant forall r, c :: 0 <= r < row && 0 <= c < n ==> !Search(board, word, r, c, 0, {})
    {
      for col := 0 to n
        invariant forall r, c :: 0 <= r < m && 0 <= c < n ==> !visited[r, c]
        invariant forall r, c :: 0 <= r < row && 0 <= c < n ==> !Search(board, word, r, c, 0, {})
        invariant forall c :: 0 <= c < col ==> !Search(board, word, row, c, 0, {})
      {
        var b := Backtrack(board, word, row, col, 0, visited, {});
        if b {
          SearchSound(board, word, row, col, 0, {});
          return true;
        }
      }
    }
    forall r, c, p | 0 <= r < m && 0 <= c < n && Path(board, word, 0, r, c, {}, p)
      ensures Search(board, word, r, c, 0, {})
    {
      SearchComplete(board, word, r, c, 0, {}, p);
    }
    assert word == [] ==> n == 0 by {
      if n > 0 {
        assert !Search(board, word, 0, 0, 0, {});
      }
    }
  }
}
