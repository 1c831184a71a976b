/**
 * The pattern matcher behind the walker's inclusion patterns: shell globs
 * restricted to literal characters and `*`, where `*` stands for any run of
 * characters that contains no `/` (it never crosses a path segment).
 */
module Glob {

  /** Number of `/` separators in `s`. */
  function SlashCount(s: string): nat
  {
    if s == [] then 0 else (if s[0] == '/' then 1 else 0) + SlashCount(s[1..])
  }

  lemma {:induction false} SlashCountAppend(a: string, b: string)
    ensures SlashCount(a + b) == SlashCount(a) + SlashCount(b)
    decreases |a|
  {
    if a != [] {
      assert (a + b)[1..] == a[1..] + b;
      SlashCountAppend(a[1..], b);
    } else {
      assert a + b == b;
    }
  }

  lemma {:induction false} NoSlashCountsZero(s: string)
    ensures SlashCount(s) == 0 <==> '/' !in s
    decreases |s|
  {
    if s != [] {
      NoSlashCountsZero(s[1..]);
      assert s == [s[0]] + s[1..];
    }
  }

  /** Whether `name` matches `pattern`; `*` never crosses `/`, so a match keeps the number of separators. */
  function Match(pattern: string, name: string): (matched: bool)
    ensures matched ==> SlashCount(name) == SlashCount(pattern)
    decreases |pattern| + |name|
  {
    if pattern == [] then name == []
    else if pattern[0] == '*' then
      Match(pattern[1..], name) || (name != [] && name[0] != '/' && Match(pattern, name[1..]))
    else
      name != [] && name[0] == pattern[0] && Match(pattern[1..], name[1..])
  }

  /** Whether `name` matches at least one of `patterns`. */
  function AnyMatch(patterns: seq<string>, name: string): (matched: bool)
    ensures matched <==> exists i :: 0 <= i < |patterns| && Match(patterns[i], name)
  {
    if patterns == [] then false
    else
      var rest := AnyMatch(patterns[1..], name);
      assert rest <==> exists i :: 1 <= i < |patterns| && Match(patterns[i], name) by {
        if rest {
          var i :| 0 <= i < |patterns[1..]| && Match(patterns[1..][i], name);
          assert Match(patterns[i + 1], name);
        }
        if exists i :: 1 <= i < |patterns| && Match(patterns[i], name) {
          var i :| 1 <= i < |patterns| && Match(patterns[i], name);
          assert Match(patterns[1..][i - 1], name);
        }
      }
      Match(patterns[0], name) || rest
  }

  /** A pattern without `*` matches exactly the name spelled like it. */
  lemma {:induction false} LiteralMatchesOnlyItself(pattern: string, name: string)
    requires '*' !in pattern
    ensures Match(pattern, name) <==> name == pattern
    decreases |pattern|
  {
    if pattern != [] && name != [] {
      assert '*' !in pattern[1..] by {
        forall i | 0 <= i < |pattern[1..]| ensures pattern[1..][i] != '*' {
          assert pattern[1..][i] == pattern[i + 1];
        }
      }
      LiteralMatchesOnlyItself(pattern[1..], name[1..]);
      assert name == [name[0]] + name[1..];
      assert pattern == [pattern[0]] + pattern[1..];
    }
  }

  /** A lone `*` matches exactly the names of one segment (empty included). */
  lemma {:induction false} StarMatchesOneSegment(name: string)
    ensures Match("*", name) <==> '/' !in name
    decreases |name|
  {
    assert "*"[1..] == "";
    if name != [] {
      StarMatchesOneSegment(name[1..]);
      assert name == [name[0]] + name[1..];
    }
  }

  /** A `*`-free prefix of a pattern must be spelled out at the start of the name. */
  lemma {:induction false} LiteralPrefix(literal: string, rest: string, name: string)
    requires '*' !in literal
    ensures Match(literal + rest, name) <==>
      |literal| <= |name| && name[..|literal|] == literal && Match(rest, name[|literal|..])
    decreases |literal|
  {
    if literal == [] {
      assert literal + rest == rest;
      assert name[..0] == literal && name[0..] == name;
    } else {
      var p := literal + rest;
      assert p[0] == literal[0] && p[1..] == literal[1..] + rest;
      assert '*' !in literal[1..] by {
        forall i | 0 <= i < |literal[1..]| ensures literal[1..][i] != '*' {
          assert literal[1..][i] == literal[i + 1];
        }
      }
      if name != [] {
        LiteralPrefix(literal[1..], rest, name[1..]);
        if |literal| <= |name| {
          assert name[1..][|literal| - 1..] == name[|literal|..];
          assert name[..|literal|] == [name[0]] + name[1..][..|literal| - 1];
          assert literal == [literal[0]] + literal[1..];
        }
      }
    }
  }

  /**
   * The pattern `dir` + "/" + "*" matches exactly the names directly inside `dir`: the name starts
   * with `dir/` and the rest holds no further `/`. So it matches neither `dir`
   * itself nor anything two levels down.
   */
  lemma DirectoryStar(dir: string, name: string)
    requires '*' !in dir
    ensures Match(dir + "/*", name) <==>
      |dir| + 1 <= |name| && name[..|dir| + 1] == dir + "/" && '/' !in name[|dir| + 1..]
  {
    assert dir + "/*" == (dir + "/") + "*";
    assert '*' !in dir + "/";
    LiteralPrefix(dir + "/", "*", name);
    if |dir| + 1 <= |name| {
      StarMatchesOneSegment(name[|dir| + 1..]);
    }
  }

  /** The pattern `dir` + "/" + "*" matches an entry of `dir` exactly when the entry's name is one segment. */
  lemma DirectoryStarChild(dir: string, name: string)
    requires '*' !in dir
    ensures Match(dir + "/*", dir + "/" + name) <==> '/' !in name
  {
    var path := dir + "/" + name;
    DirectoryStar(dir, path);
    assert path[..|dir| + 1] == dir + "/";
    assert path[|dir| + 1..] == name;
  }

  lemma AnyMatchOfTwo(p: string, q: string, name: string)
    ensures AnyMatch([p, q], name) <==> Match(p, name) || Match(q, name)
  {
    assert [p, q][1..] == [q] && [q][1..] == [];
    assert !AnyMatch([], name);
    assert AnyMatch([q], name) <==> Match(q, name);
  }
}
