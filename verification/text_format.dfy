/** String shapes produced by the directory tree's listings: `ls` joins its
    entries with a newline between them, `pwd` puts a slash in front of every
    name on the path. `Split` reads such strings back into their pieces. */
module TextFormat {

  /** `parts` glued together with one `sep` between consecutive parts and no
      separator before the first or after the last. */
  function Join(parts: seq<string>, sep: char): string
  {
    if parts == [] then ""
    else if |parts| == 1 then parts[0]
    else parts[0] + [sep] + Join(parts[1..], sep)
  }

  /** Every part preceded by `sep`, all concatenated. */
  function PrefixEach(parts: seq<string>, sep: char): (s: string)
    ensures parts == [] <==> s == ""
    ensures parts != [] ==> s[0] == sep
  {
    if parts == [] then "" else [sep] + parts[0] + PrefixEach(parts[1..], sep)
  }

  /** Every part followed by `sep`, all concatenated. */
  function SuffixEach(parts: seq<string>, sep: char): string
  {
    if parts == [] then "" else SuffixEach(parts[..|parts| - 1], sep) + parts[|parts| - 1] + [sep]
  }

  /** A non-empty run of parts each followed by `sep` is the parts joined by
      `sep` with one more `sep` at the end. */
  lemma {:induction false} SuffixEachJoin(parts: seq<string>, sep: char)
    requires parts != []
    ensures SuffixEach(parts, sep) == Join(parts, sep) + [sep]
    decreases |parts|
  {
    var init, last := parts[..|parts| - 1], parts[|parts| - 1];
    assert init + [last] == parts;
    if init == [] {
      assert parts == [last];
    } else {
      SuffixEachJoin(init, sep);
      JoinSnoc(init, last, sep);
    }
  }

  /** The maximal pieces of `s` that hold no `sep`, in order; `|pieces| - 1`
      is the number of separators in `s`. */
  function Split(s: string, sep: char): (pieces: seq<string>)
    ensures |pieces| >= 1
    ensures sep !in s ==> pieces == [s]
    ensures forall k :: 0 <= k < |pieces| ==> sep !in pieces[k]
    decreases |s|
  {
    if s == [] then [""]
    else
      var rest := Split(s[1..], sep);
      assert [s[0]] + s[1..] == s;
      if s[0] == sep then [""] + rest
      else [[s[0]] + rest[0]] + rest[1..]
  }

  /** Joining the pieces with the separator gives back the original string:
      with `SplitJoin`, `Split` and `Join` are inverse on parts free of the
      separator. */
  lemma {:induction false} JoinSplit(s: string, sep: char)
    ensures Join(Split(s, sep), sep) == s
    decreases |s|
  {
    if s != [] {
      var rest := Split(s[1..], sep);
      JoinSplit(s[1..], sep);
      assert [s[0]] + s[1..] == s;
      if s[0] != sep && |rest| > 1 {
        assert Split(s, sep) == [[s[0]] + rest[0]] + rest[1..];
        assert (([[s[0]] + rest[0]] + rest[1..])[1..]) == rest[1..];
      }
    }
  }

  /** Appending one more part extends the joined string by a separator and
      that part. */
  lemma {:induction false} JoinSnoc(parts: seq<string>, last: string, sep: char)
    requires parts != []
    ensures Join(parts + [last], sep) == Join(parts, sep) + [sep] + last
  {
    if |parts| > 1 {
      JoinSnoc(parts[1..], last, sep);
      assert (parts + [last])[1..] == parts[1..] + [last];
    }
  }

  /** Appending one more part extends the prefixed string by a separator and
      that part. */
  lemma {:induction false} PrefixEachSnoc(parts: seq<string>, last: string, sep: char)
    ensures PrefixEach(parts + [last], sep) == PrefixEach(parts, sep) + [sep] + last
  {
    if parts == [] {
      assert parts + [last] == [last];
    } else {
      PrefixEachSnoc(parts[1..], last, sep);
      assert (parts + [last])[1..] == parts[1..] + [last];
    }
  }

  /** A separator-free head is cut off as the first piece. */
  lemma {:induction false} SplitAfter(head: string, tail: string, sep: char)
    requires sep !in head
    ensures Split(head + [sep] + tail, sep) == [head] + Split(tail, sep)
    decreases |head|
  {
    if head == [] {
      assert head + [sep] + tail == [sep] + tail;
      assert ([sep] + tail)[1..] == tail;
    } else {
      SplitAfter(head[1..], tail, sep);
      assert (head + [sep] + tail)[1..] == head[1..] + [sep] + tail;
      assert [head[0]] + head[1..] == head;
    }
  }

  /** Splitting undoes joining, as long as no part holds the separator. */
  lemma {:induction false} SplitJoin(parts: seq<string>, sep: char)
    requires parts != []
    requires forall k :: 0 <= k < |parts| ==> sep !in parts[k]
    ensures Split(Join(parts, sep), sep) == parts
  {
    if |parts| > 1 {
      SplitJoin(parts[1..], sep);
      SplitAfter(parts[0], Join(parts[1..], sep), sep);
      assert [parts[0]] + parts[1..] == parts;
    }
  }

  /** A non-empty run of prefixed parts is the parts joined by `sep`, with
      one more `sep` in front. */
  lemma {:induction false} PrefixEachJoin(parts: seq<string>, sep: char)
    requires parts != []
    ensures PrefixEach(parts, sep) == [sep] + Join(parts, sep)
  {
    if |parts| > 1 {
      PrefixEachJoin(parts[1..], sep);
    }
  }

  /** Splitting a prefixed string gives an empty leading piece followed by the
      parts, as long as no part holds the separator. */
  lemma SplitPrefixEach(parts: seq<string>, sep: char)
    requires forall k :: 0 <= k < |parts| ==> sep !in parts[k]
    ensures Split(PrefixEach(parts, sep), sep) == [""] + parts
  {
    if parts != [] {
      PrefixEachJoin(parts, sep);
      SplitJoin(parts, sep);
      SplitAfter("", Join(parts, sep), sep);
      assert "" + [sep] + Join(parts, sep) == [sep] + Join(parts, sep);
    }
  }
}
