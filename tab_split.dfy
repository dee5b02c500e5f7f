/** Splitting a raw index-file line into its tab-separated columns, as
    Python's `str.split('\t')` does, and the joining that undoes it. */
module TabSplit {

  /** The column separator of the index file. */
  const Tab: char := '\t'

  /** Number of tab characters in `s`. */
  function TabCount(s: string): nat
  {
    if s == [] then 0 else (if s[0] == Tab then 1 else 0) + TabCount(s[1..])
  }

  /** `s.split('\t')`: the maximal tab-free runs of `s`, in order. An empty
      string gives one empty piece, and two adjacent tabs give an empty
      piece between them. */
  function Split(s: string): (pieces: seq<string>)
    ensures |pieces| == TabCount(s) + 1
    ensures forall p :: p in pieces ==> Tab !in p
  {
    if s == [] then [""]
    else
      var rest := Split(s[1..]);
      if s[0] == Tab then [""] + rest
      else [[s[0]] + rest[0]] + rest[1..]
  }

  /** `'\t'.join(pieces)`: the pieces in order with one tab between
      neighbours. */
  function Join(pieces: seq<string>): string
  {
    if pieces == [] then ""
    else if |pieces| == 1 then pieces[0]
    else pieces[0] + [Tab] + Join(pieces[1..])
  }

  /** Splitting loses nothing: joining the pieces gives the line back. */
  lemma {:induction false} JoinSplit(s: string)
    ensures Join(Split(s)) == s
  {
    if s != [] {
      var rest := Split(s[1..]);
      JoinSplit(s[1..]);
      if s[0] == Tab {
        assert Split(s) == [""] + rest;
        assert s == [Tab] + s[1..];
      } else {
        var head := [s[0]] + rest[0];
        assert Split(s) == [head] + rest[1..];
        if |rest| == 1 {
          assert rest == [rest[0]];
          assert s == [s[0]] + s[1..];
        } else {
          assert Join(rest) == rest[0] + [Tab] + Join(rest[1..]);
          assert ([head] + rest[1..])[1..] == rest[1..];
          assert s == [s[0]] + s[1..];
        }
      }
    }
  }

  /** The inductive step of `SplitAtTab` when the left side starts with a
      tab: both sides gain one empty piece in front. */
  lemma SplitAtTabStepTab(t: string, b: string, left: string, whole: string)
    requires left == [Tab] + t && whole == [Tab] + (t + [Tab] + b)
    requires Split(t + [Tab] + b) == Split(t) + Split(b)
    ensures Split(whole) == Split(left) + Split(b)
  {
  }

  /** The inductive step of `SplitAtTab` when the left side starts with a
      character `c` other than a tab: `c` joins the first piece on both
      sides. */
  lemma SplitAtTabStepChar(c: char, t: string, b: string, left: string, whole: string)
    requires c != Tab
    requires left == [c] + t && whole == [c] + (t + [Tab] + b)
    requires Split(t + [Tab] + b) == Split(t) + Split(b)
    ensures Split(whole) == Split(left) + Split(b)
  {
  }

  /** A tab splits a line into the pieces left of it followed by the
      pieces right of it. */
  lemma {:induction false} SplitAtTab(a: string, b: string)
    ensures Split(a + [Tab] + b) == Split(a) + Split(b)
  {
    if a == [] {
      assert a + [Tab] + b == [Tab] + b;
    } else {
      SplitAtTab(a[1..], b);
      if a[0] == Tab {
        SplitAtTabStepTab(a[1..], b, a, a + [Tab] + b);
      } else {
        SplitAtTabStepChar(a[0], a[1..], b, a, a + [Tab] + b);
      }
    }
  }

  /** A string is a single piece exactly when it holds no tab. */
  lemma {:induction false} SplitSingle(s: string)
    ensures Split(s) == [s] <==> Tab !in s
  {
    if Tab !in s && s != [] {
      SplitSingle(s[1..]);
      assert s == [s[0]] + s[1..];
    }
  }

  /** A line that does not end in a tab ends with its last piece, which
      therefore keeps the line's final character. */
  lemma {:induction false} LastPiece(s: string)
    requires |s| > 0 && s[|s| - 1] != Tab
    ensures var last := Split(s)[|Split(s)| - 1]; |last| > 0 && last[|last| - 1] == s[|s| - 1]
  {
    if |s| == 1 {
      assert s[1..] == [];
    } else {
      var rest := Split(s[1..]);
      LastPiece(s[1..]);
      if s[0] != Tab && |rest| == 1 {
        assert Split(s) == [[s[0]] + rest[0]];
      }
    }
  }

  /** Joining tab-free pieces and splitting again gives the same pieces. */
  lemma {:induction false} SplitJoin(pieces: seq<string>)
    requires |pieces| >= 1
    requires forall p :: p in pieces ==> Tab !in p
    ensures Split(Join(pieces)) == pieces
  {
    SplitSingle(pieces[0]);
    if |pieces| > 1 {
      SplitJoin(pieces[1..]);
      SplitAtTab(pieces[0], Join(pieces[1..]));
      assert pieces == [pieces[0]] + pieces[1..];
    }
  }
}
