/** Splitting and joining text at a one-character separator (Go's strings.Split and the joins written out by hand). */
module Text {

  function IndexOf(s: string, c: char): (i: nat)
    requires c in s
    ensures i < |s| && s[i] == c && c !in s[..i]
  {
    if s[0] == c then 0
    else
      var i := 1 + IndexOf(s[1..], c);
      assert s[..i] == [s[0]] + s[1..][..i - 1];
      i
  }

  // strings.Split: n separators cut the text into n + 1 pieces, and no piece holds the separator.
  function Split(s: string, sep: char): (parts: seq<string>)
    ensures |parts| >= 1
    ensures forall p | p in parts :: sep !in p
  {
    if sep !in s then [s]
    else
      var i := IndexOf(s, sep);
      [s[..i]] + Split(s[i + 1..], sep)
  }

  function Join(parts: seq<string>, sep: char): string
  {
    if parts == [] then ""
    else if |parts| == 1 then parts[0]
    else parts[0] + [sep] + Join(parts[1..], sep)
  }

  // Joining puts one separator between the texts on either side, wherever a list is cut.
  lemma {:induction false} JoinConcat(a: seq<string>, b: seq<string>, sep: char)
    requires a != [] && b != []
    ensures Join(a + b, sep) == Join(a, sep) + [sep] + Join(b, sep)
  {
    if |a| == 1 {
      assert (a + b)[1..] == b;
    } else {
      JoinConcat(a[1..], b, sep);
      assert (a + b)[1..] == a[1..] + b;
      var first := a[0] + [sep];
      assert first + (Join(a[1..], sep) + [sep] + Join(b, sep)) == first + Join(a[1..], sep) + [sep] + Join(b, sep);
    }
  }

  // The joined text after its first piece.
  function Continued(parts: seq<string>, sep: char): string
  {
    if parts == [] then "" else [sep] + parts[0] + Continued(parts[1..], sep)
  }

  lemma {:induction false} JoinContinued(first: string, rest: seq<string>, sep: char)
    ensures Join([first] + rest, sep) == first + Continued(rest, sep)
    decreases |rest|
  {
    assert ([first] + rest)[1..] == rest;
    if rest != [] {
      JoinContinued(rest[0], rest[1..], sep);
      assert rest == [rest[0]] + rest[1..];
      assert first + [sep] + (rest[0] + Continued(rest[1..], sep)) == first + ([sep] + rest[0] + Continued(rest[1..], sep));
    }
  }

  lemma ContinuedPiece(part: string, rest: seq<string>, sep: char)
    ensures Continued([part] + rest, sep) == [sep] + part + Continued(rest, sep)
  {
    assert ([part] + rest)[1..] == rest;
  }

  lemma IndexOfIsFirst(s: string, c: char, i: nat)
    requires i < |s| && s[i] == c && c !in s[..i]
    ensures c in s && IndexOf(s, c) == i
  {
  }

  // Split works at the first separator.
  lemma SplitAt(s: string, sep: char, i: nat)
    requires i < |s| && s[i] == sep && sep !in s[..i]
    ensures Split(s, sep) == [s[..i]] + Split(s[i + 1..], sep)
  {
  }

  // Cutting off a first piece that does not hold the separator.
  lemma SplitFirst(a: string, rest: string, sep: char)
    requires sep !in a
    ensures Split(a + [sep] + rest, sep) == [a] + Split(rest, sep)
  {
    var s := a + [sep] + rest;
    assert s[..|a|] == a && s[|a|] == sep && s[|a| + 1..] == rest;
    SplitAt(s, sep, |a|);
  }

  lemma {:induction false} SplitConcat(a: string, rest: string, sep: char)
    ensures Split(a + [sep] + rest, sep) == Split(a, sep) + Split(rest, sep)
    decreases |a|
  {
    if sep !in a {
      SplitFirst(a, rest, sep);
    } else {
      var i := IndexOf(a, sep);
      SplitConcat(a[i + 1..], rest, sep);
      SplitLater(a, rest, sep, i);
      var first, middle, last := [a[..i]], Split(a[i + 1..], sep), Split(rest, sep);
      assert first + (middle + last) == first + middle + last;
    }
  }

  lemma SplitLater(a: string, rest: string, sep: char, i: nat)
    requires i < |a| && a[i] == sep && sep !in a[..i]
    ensures Split(a + [sep] + rest, sep) == [a[..i]] + Split(a[i + 1..] + [sep] + rest, sep)
  {
    var s := a + [sep] + rest;
    assert s[..i] == a[..i] && s[i] == sep;
    assert s[i + 1..] == a[i + 1..] + [sep] + rest;
    SplitAt(s, sep, i);
  }

  lemma {:induction false} SplitJoin(parts: seq<string>, sep: char)
    requires parts != []
    requires forall p | p in parts :: sep !in p
    ensures Split(Join(parts, sep), sep) == parts
  {
    if |parts| > 1 {
      SplitFirst(parts[0], Join(parts[1..], sep), sep);
      SplitJoin(parts[1..], sep);
    }
  }

  // Joined pieces come back in the same number exactly when none of them holds the separator.
  lemma {:induction false} SplitJoinCount(parts: seq<string>, sep: char)
    requires parts != []
    ensures |Split(Join(parts, sep), sep)| >= |parts|
    ensures |Split(Join(parts, sep), sep)| == |parts| <==> forall p | p in parts :: sep !in p
  {
    assert parts == [parts[0]] + parts[1..];
    assert |Split(parts[0], sep)| == 1 <==> sep !in parts[0];
    if |parts| > 1 {
      SplitJoinCount(parts[1..], sep);
      SplitConcat(parts[0], Join(parts[1..], sep), sep);
    }
  }

  lemma {:induction false} JoinSplit(s: string, sep: char)
    ensures Join(Split(s, sep), sep) == s
    decreases |s|
  {
    if sep in s {
      var i := IndexOf(s, sep);
      JoinSplit(s[i + 1..], sep);
      assert s == s[..i] + [sep] + s[i + 1..];
      assert Split(s, sep)[1..] == Split(s[i + 1..], sep);
    }
  }

  // The text built by appending one more piece, as the hand-written joining loops do.
  lemma {:induction false} JoinAppend(parts: seq<string>, last: string, sep: char)
    ensures Join(parts + [last], sep) == if parts == [] then last else Join(parts, sep) + [sep] + last
  {
    if |parts| > 1 {
      JoinAppend(parts[1..], last, sep);
      assert (parts + [last])[1..] == parts[1..] + [last];
    } else if |parts| == 1 {
      assert (parts + [last])[1..] == [last];
    }
  }
}
