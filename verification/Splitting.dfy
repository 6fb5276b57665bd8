/** Texts made of parts with a separator between them. */
module Splitting {
  function SplitOn(s: string, delim: char): (parts: seq<string>)
    ensures |parts| >= 1
  {
    if s == "" then [""]
    else
      var rest := SplitOn(s[1..], delim);
      if s[0] == delim then [""] + rest else Glue([s[0]], rest)
  }

  /** The same parts with more in front of the first. */
  function Glue(front: string, parts: seq<string>): (glued: seq<string>)
    requires |parts| >= 1
    ensures |glued| == |parts|
  {
    [front + parts[0]] + parts[1..]
  }

  lemma GlueFacts(front: string, c: char, parts: seq<string>)
    requires |parts| >= 1
    ensures Glue("", parts) == parts
    ensures Glue(front, [""] + parts) == [front] + parts
    ensures Glue(front, Glue([c], parts)) == Glue(front + [c], parts)
  {
    assert "" + parts[0] == parts[0] && front + "" == front;
    assert front + ([c] + parts[0]) == front + [c] + parts[0];
    assert ([""] + parts)[1..] == parts && Glue([c], parts)[1..] == parts[1..];
  }

  lemma {:induction false} SplitFirst(part: string, rest: string, delim: char)
    requires forall i :: 0 <= i < |part| ==> part[i] != delim
    ensures SplitOn(part + [delim] + rest, delim) == [part] + SplitOn(rest, delim)
  {
    var s := part + [delim] + rest;
    if part == "" {
      assert s[1..] == rest;
    } else {
      assert s[1..] == part[1..] + [delim] + rest;
      SplitFirst(part[1..], rest, delim);
      assert [part[0]] + part[1..] == part;
      assert SplitOn(s, delim) == Glue([part[0]], [part[1..]] + SplitOn(rest, delim));
    }
  }

  lemma {:induction false} SplitLast(part: string, delim: char)
    requires forall i :: 0 <= i < |part| ==> part[i] != delim
    ensures SplitOn(part, delim) == [part]
  {
    if part != "" {
      SplitLast(part[1..], delim);
      assert [part[0]] + part[1..] == part;
    }
  }

  function Count(s: string, c: char): nat {
    if s == "" then 0 else (if s[0] == c then 1 else 0) + Count(s[1..], c)
  }

  /** One part more than there are separators. */
  lemma {:induction false} PartsCount(s: string, delim: char)
    ensures |SplitOn(s, delim)| == Count(s, delim) + 1
  {
    if s != "" {
      PartsCount(s[1..], delim);
    }
  }

  /** The first part is what the text begins with, up to a separator if there is one. */
  lemma {:induction false} FirstPartLeads(s: string, delim: char)
    ensures SplitOn(s, delim)[0] <= s
    ensures |SplitOn(s, delim)| > 1 ==> SplitOn(s, delim)[0] + [delim] <= s
  {
    if s != "" && s[0] != delim {
      FirstPartLeads(s[1..], delim);
    }
  }

  function Join(parts: seq<string>, delim: char): string
    requires |parts| >= 1
  {
    if |parts| == 1 then parts[0] else parts[0] + [delim] + Join(parts[1..], delim)
  }

  predicate Free(part: string, delim: char) {
    delim !in part
  }

  lemma JoinThree(a: string, b: string, c: string, delim: char)
    ensures Join([a, b, c], delim) == a + [delim] + (b + [delim] + c)
  {
    assert [a, b, c][1..] == [b, c] && [b, c][1..] == [c];
    assert Join([b, c], delim) == b + [delim] + c;
  }

  lemma JoinAfterThree(a: string, b: string, c: string, rest: seq<string>, delim: char)
    requires |rest| >= 1
    ensures Join([a, b, c] + rest, delim) == a + [delim] + (b + [delim] + (c + [delim] + Join(rest, delim)))
  {
    assert ([a, b, c] + rest)[1..] == [b, c] + rest && ([b, c] + rest)[1..] == [c] + rest;
    assert ([c] + rest)[1..] == rest;
    assert Join([b, c] + rest, delim) == b + [delim] + Join([c] + rest, delim);
  }

  lemma JoinFour(a: string, b: string, c: string, d: string, delim: char)
    ensures Join([a, b, c, d], delim) == a + [delim] + (b + [delim] + (c + [delim] + d))
  {
    assert [a, b, c, d][1..] == [b, c, d];
    JoinThree(b, c, d, delim);
  }

  lemma {:induction false} SplitJoin(parts: seq<string>, delim: char)
    requires |parts| >= 1 && forall i :: 0 <= i < |parts| ==> Free(parts[i], delim)
    ensures SplitOn(Join(parts, delim), delim) == parts
  {
    if |parts| == 1 {
      SplitLast(parts[0], delim);
    } else {
      SplitFirst(parts[0], Join(parts[1..], delim), delim);
      SplitJoin(parts[1..], delim);
      assert parts == [parts[0]] + parts[1..];
    }
  }
}
