/** Text as lines: JavaScript's `text.split('\n')`, which the page uses both to
    count the lines of a diff part and to render a file one row per line. */
module Lines {

  /** The number of line feeds in `s`. */
  function Newlines(s: string): nat
  {
    multiset(s)['\n']
  }

  /** `s.split('\n')`: the pieces of `s` between line feeds. The empty string
      gives one empty piece, and a trailing line feed gives an empty last piece. */
  function Split(s: string): (rows: seq<string>)
    ensures |rows| >= 1
    ensures forall i :: 0 <= i < |rows| ==> '\n' !in rows[i]
  {
    if s == [] then [[]]
    else
      var rest := Split(s[1..]);
      if s[0] == '\n' then [[]] + rest
      else [[s[0]] + rest[0]] + rest[1..]
  }

  /** `rows.join('\n')`. */
  function Join(rows: seq<string>): string
    requires |rows| >= 1
  {
    if |rows| == 1 then rows[0] else rows[0] + ['\n'] + Join(rows[1..])
  }

  /** Splitting yields one piece more than there are line feeds, so a part's
      `split('\n').length - 1` is its number of line feeds. */
  lemma {:induction false} SplitCount(s: string)
    ensures |Split(s)| == Newlines(s) + 1
  {
    if s != [] {
      SplitCount(s[1..]);
      assert s == [s[0]] + s[1..];
      assert multiset(s) == multiset([s[0]]) + multiset(s[1..]);
    }
  }

  /** Joining the pieces back with line feeds gives the text again: the rows
      rendered for a file are exactly its contents. */
  lemma {:induction false} JoinSplit(s: string)
    ensures Join(Split(s)) == s
  {
    if s != [] {
      var rest := Split(s[1..]);
      JoinSplit(s[1..]);
      if s[0] == '\n' {
        assert Split(s)[1..] == rest;
        assert s == ['\n'] + s[1..];
      } else if |rest| == 1 {
        assert s == [s[0]] + s[1..];
      } else {
        assert Split(s)[1..] == rest[1..];
        assert Join(rest) == rest[0] + ['\n'] + Join(rest[1..]);
        assert s == [s[0]] + s[1..];
      }
    }
  }

  /** A piece without line feeds splits to itself. */
  lemma {:induction false} SplitRow(r: string)
    requires '\n' !in r
    ensures Split(r) == [r]
  {
    if r != [] {
      assert r[0] in r;
      assert forall c :: c in r[1..] ==> c in r;
      SplitRow(r[1..]);
      assert [r[0]] + r[1..] == r;
    }
  }

  /** A piece followed by a line feed starts a new row. */
  lemma {:induction false} SplitAfterRow(r: string, t: string)
    requires '\n' !in r
    ensures Split(r + ['\n'] + t) == [r] + Split(t)
  {
    if r == [] {
      assert r + ['\n'] + t == ['\n'] + t;
      assert (['\n'] + t)[1..] == t;
    } else {
      var s := r + ['\n'] + t;
      assert r[0] in r;
      assert forall c :: c in r[1..] ==> c in r;
      assert s[1..] == r[1..] + ['\n'] + t;
      SplitAfterRow(r[1..], t);
      assert [r[0]] + r[1..] == r;
    }
  }

  /** Splitting undoes joining rows that hold no line feed. */
  lemma {:induction false} SplitJoin(rows: seq<string>)
    requires |rows| >= 1
    requires forall i :: 0 <= i < |rows| ==> '\n' !in rows[i]
    ensures Split(Join(rows)) == rows
  {
    if |rows| == 1 {
      SplitRow(rows[0]);
    } else {
      SplitJoin(rows[1..]);
      SplitAfterRow(rows[0], Join(rows[1..]));
      assert [rows[0]] + rows[1..] == rows;
    }
  }
}
