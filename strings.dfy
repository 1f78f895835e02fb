/*
 * Counting line breaks in text, shared by the modules that assemble
 * text line by line.
 */
module Strings {
  /** The number of '\n' characters in `s`. */
  function Newlines(s: string): nat
  {
    multiset(s)['\n']
  }

  /** The lines joined by '\n', with none after the last. */
  function Join(lines: seq<string>): string
  {
    if |lines| <= 1 then (if lines == [] then "" else lines[0])
    else Join(lines[..|lines| - 1]) + "\n" + lines[|lines| - 1]
  }

  lemma JoinSnoc(lines: seq<string>, line: string)
    requires lines != []
    ensures Join(lines + [line]) == Join(lines) + "\n" + line
  {
    assert (lines + [line])[..|lines|] == lines;
  }

  /** Lines without line breaks are joined with one '\n' between each two. */
  lemma {:induction false} JoinNewlines(lines: seq<string>)
    requires lines != [] && forall l | l in lines :: '\n' !in l
    ensures Newlines(Join(lines)) == |lines| - 1
  {
    if |lines| == 1 {
      assert lines[0] in lines;
    } else {
      var init := lines[..|lines| - 1];
      assert forall l | l in init :: l in lines;
      assert lines[|lines| - 1] in lines;
      JoinNewlines(init);
    }
  }

  /** Concatenation is associative. */
  lemma Reassociate(x: string, y: string, z: string)
    ensures x + y + z == x + (y + z)
  {
  }
}
