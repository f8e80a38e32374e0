/**
 * `indentDoc`: every line of a value's printed form is indented by two
 * spaces after the first, by substituting each newline with a newline
 * followed by two spaces. The printed form itself comes from Python's
 * `repr`, which is not part of this model: the functions here take the
 * resulting string.
 */
module Indentation {

  /** Number of newline characters in `s`. */
  function NewlineCount(s: string): (c: nat)
    ensures c <= |s|
  {
    if s == [] then 0 else (if s[0] == '\n' then 1 else 0) + NewlineCount(s[1..])
  }

  /** The substitution `re.sub('\n', '\n  ', s)`: each newline gains two spaces after it. */
  function IndentDoc(s: string): (r: string)
    ensures |r| == |s| + 2 * NewlineCount(s)
  {
    if s == [] then []
    else (if s[0] == '\n' then "\n  " else [s[0]]) + IndentDoc(s[1..])
  }

  /** Deletes the two spaces that follow a newline, wherever there are two. */
  function Dedent(r: string): (s: string)
    ensures |s| <= |r|
  {
    if r == [] then []
    else if r[0] == '\n' && |r| >= 3 && r[1] == ' ' && r[2] == ' ' then "\n" + Dedent(r[3..])
    else [r[0]] + Dedent(r[1..])
  }

  /** A string without a newline is returned unchanged. */
  lemma {:induction false} IndentWithoutNewline(s: string)
    requires '\n' !in s
    ensures IndentDoc(s) == s
  {
    if s != [] {
      assert s[0] != '\n' && '\n' !in s[1..];
      IndentWithoutNewline(s[1..]);
    }
  }

  /** The substitution works piecewise: indenting a concatenation indents each part. */
  lemma {:induction false} IndentConcat(a: string, b: string)
    ensures IndentDoc(a + b) == IndentDoc(a) + IndentDoc(b)
  {
    if a == [] {
      assert a + b == b;
    } else {
      assert (a + b)[0] == a[0] && (a + b)[1..] == a[1..] + b;
      IndentConcat(a[1..], b);
    }
  }

  /** Deleting the two spaces after each newline recovers the input. */
  lemma {:induction false} DedentIndent(s: string)
    ensures Dedent(IndentDoc(s)) == s
  {
    if s != [] {
      var rest := IndentDoc(s[1..]);
      DedentIndent(s[1..]);
      if s[0] == '\n' {
        assert IndentDoc(s) == "\n  " + rest;
        assert (IndentDoc(s))[3..] == rest;
      } else {
        assert IndentDoc(s) == [s[0]] + rest;
        assert (IndentDoc(s))[1..] == rest;
      }
    }
  }

  /** The output has exactly as many newlines as the input. */
  lemma {:induction false} IndentKeepsNewlines(s: string)
    ensures NewlineCount(IndentDoc(s)) == NewlineCount(s)
  {
    if s != [] {
      IndentKeepsNewlines(s[1..]);
      var head := if s[0] == '\n' then "\n  " else [s[0]];
      NewlineCountConcat(head, IndentDoc(s[1..]));
      assert NewlineCount(head) == (if s[0] == '\n' then 1 else 0) by {
        if s[0] == '\n' {
          assert " "[1..] == [] && "  "[1..] == " " && head[1..] == "  ";
          assert NewlineCount(" ") == 0;
          assert NewlineCount("  ") == 0;
        } else {
          assert head[1..] == [];
        }
      }
    }
  }

  /** Newlines of a concatenation are those of its parts. */
  lemma {:induction false} NewlineCountConcat(a: string, b: string)
    ensures NewlineCount(a + b) == NewlineCount(a) + NewlineCount(b)
  {
    if a == [] {
      assert a + b == b;
    } else {
      assert (a + b)[0] == a[0] && (a + b)[1..] == a[1..] + b;
      NewlineCountConcat(a[1..], b);
    }
  }

  /** In the output every newline is followed by two spaces: each line after the first is indented. */
  lemma {:induction false} IndentFollowsNewlines(s: string, k: nat)
    requires k < |IndentDoc(s)| && IndentDoc(s)[k] == '\n'
    ensures k + 2 < |IndentDoc(s)| && IndentDoc(s)[k + 1] == ' ' && IndentDoc(s)[k + 2] == ' '
  {
    var r := IndentDoc(s);
    var rest := IndentDoc(s[1..]);
    if s[0] == '\n' {
      assert r == "\n  " + rest;
      if k >= 3 {
        assert rest[k - 3] == r[k];
        IndentFollowsNewlines(s[1..], k - 3);
        assert r[k + 1] == rest[k - 2] && r[k + 2] == rest[k - 1];
      }
    } else {
      assert r == [s[0]] + rest;
      assert k >= 1;
      assert rest[k - 1] == r[k];
      IndentFollowsNewlines(s[1..], k - 1);
      assert r[k + 1] == rest[k] && r[k + 2] == rest[k + 1];
    }
  }
}
