/** Texts built of separated fields, and the splitting that reads them back. */
module Texts {

  /** The pieces of `s` between the occurrences of `sep`; a text ending in
      `sep` has an empty last piece. */
  function Split(s: string, sep: char): (r: seq<string>)
    ensures |r| >= 1
    ensures forall i :: 0 <= i < |r| ==> sep !in r[i]
  {
    if s == [] then [""]
    else if s[0] == sep then [""] + Split(s[1..], sep)
    else
      var rest := Split(s[1..], sep);
      [[s[0]] + rest[0]] + rest[1..]
  }

  /** Each piece followed by `sep`. */
  function Terminated(pieces: seq<string>, sep: char): string {
    if pieces == [] then "" else pieces[0] + [sep] + Terminated(pieces[1..], sep)
  }

  predicate Free(pieces: seq<string>, sep: char) {
    forall i :: 0 <= i < |pieces| ==> sep !in pieces[i]
  }

  lemma {:induction false} SplitPiece(a: string, b: string, sep: char)
    requires sep !in a
    ensures Split(a + [sep] + b, sep) == [a] + Split(b, sep)
    ensures Split(a, sep) == [a]
  {
    if a != [] {
      assert (a + [sep] + b)[1..] == a[1..] + [sep] + b;
      SplitPiece(a[1..], b, sep);
      assert [a[0]] + a[1..] == a;
    } else {
      assert a + [sep] + b == [sep] + b;
    }
  }

  /** Splitting pieces that are each followed by `sep`, then a last piece,
      gives the pieces back. */
  lemma {:induction false} SplitTerminated(pieces: seq<string>, last: string, sep: char)
    requires Free(pieces, sep) && sep !in last
    ensures Split(Terminated(pieces, sep) + last, sep) == pieces + [last]
  {
    if pieces == [] {
      SplitPiece(last, "", sep);
      assert Terminated(pieces, sep) + last == last;
    } else {
      assert Terminated(pieces, sep) + last == pieces[0] + [sep] + (Terminated(pieces[1..], sep) + last);
      SplitPiece(pieces[0], Terminated(pieces[1..], sep) + last, sep);
      SplitTerminated(pieces[1..], last, sep);
    }
  }
}
