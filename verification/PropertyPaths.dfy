/** Property paths as strings: joining, leaf and branch, and the tokens a walk goes through. */
module PropertyPaths {
  /** A path as the walk sees it: the names between the slashes. */
  type Path = seq<string>

  ghost predicate NoSlash(s: string) {
    forall i :: 0 <= i < |s| ==> s[i] != '/'
  }

  /** Length of the longest prefix without a slash. */
  function WordLength(s: string): (n: nat)
    ensures n <= |s|
    ensures NoSlash(s[..n])
    ensures n < |s| ==> s[n] == '/'
  {
    if s == "" || s[0] == '/' then 0
    else
      var n := WordLength(s[1..]);
      assert s[..1 + n] == [s[0]] + s[1..][..n];
      1 + n
  }

  /** The tokenizer of every walk: split at '/', dropping empty tokens. */
  function Tokens(s: string): Path {
    if s == "" then []
    else if s[0] == '/' then Tokens(s[1..])
    else
      var n := WordLength(s);
      [s[..n]] + Tokens(s[n..])
  }

  /** No token is empty or holds a slash. */
  lemma {:induction false} TokensAreNames(s: string)
    ensures forall t :: t in Tokens(s) ==> t != "" && NoSlash(t)
  {
    if s == "" {
    } else if s[0] == '/' {
      TokensAreNames(s[1..]);
    } else {
      TokensAreNames(s[WordLength(s)..]);
    }
  }

  lemma {:induction false} WordLengthConcat(a: string, b: string)
    ensures NoSlash(a) ==> WordLength(a + "/" + b) == |a|
    ensures !NoSlash(a) ==> WordLength(a + "/" + b) == WordLength(a)
  {
    var s := a + "/" + b;
    if a == "" {
      assert s[0] == '/';
    } else if a[0] != '/' {
      assert s[1..] == a[1..] + "/" + b;
      WordLengthConcat(a[1..], b);
      assert NoSlash(a) <==> NoSlash(a[1..]) by {
        assert forall i :: 1 <= i < |a| ==> a[i] == a[1..][i - 1];
      }
    }
  }

  lemma TokensOfWord(s: string)
    requires s != "" && NoSlash(s)
    ensures Tokens(s) == [s]
  {
    assert WordLength(s) == |s|;
    assert s[..|s|] == s && s[|s|..] == "";
  }

  lemma TokensStep(s: string, n: nat)
    requires s != "" && s[0] != '/' && n == WordLength(s)
    ensures n > 0 && Tokens(s) == [s[..n]] + Tokens(s[n..])
  {}

  lemma SlashStep(s: string)
    requires s != "" && s[0] == '/'
    ensures Tokens(s) == Tokens(s[1..])
  {}

  /** A slash between two strings separates their tokens. */
  lemma {:induction false} TokensConcat(a: string, b: string)
    ensures Tokens(a + "/" + b) == Tokens(a) + Tokens(b)
    decreases |a|
  {
    var s := a + "/" + b;
    if a == "" {
      assert s[1..] == b;
      SlashStep(s);
    } else if a[0] == '/' {
      assert s[1..] == a[1..] + "/" + b;
      SlashStep(s);
      SlashStep(a);
      hide Tokens;
      TokensConcat(a[1..], b);
    } else {
      WordConcat(a, b);
    }
  }

  lemma {:induction false} WordConcat(a: string, b: string)
    requires a != "" && a[0] != '/'
    ensures Tokens(a + "/" + b) == Tokens(a) + Tokens(b)
    decreases |a|, 0
  {
    var s, n := a + "/" + b, WordLength(a);
    WordLengthConcat(a, b);
    assert a[..n] == a || n < |a|;
    TokensStep(s, n);
    TokensStep(a, n);
    assert s[..n] == a[..n];
    hide Tokens, WordLength;
    if n == |a| {
      assert s[n..] == "" + "/" + b && a[n..] == "";
      TokensConcat("", b);
    } else {
      assert s[n..] == a[n..] + "/" + b;
      TokensConcat(a[n..], b);
    }
  }

  // ---------- joining ----------

  /** operator/ on two paths. */
  function Join(lhs: string, rhs: string): string
    decreases |lhs| + |rhs|
  {
    if lhs != "" && lhs[|lhs| - 1] == '/' then Join(lhs[..|lhs| - 1], rhs)
    else if rhs != "" && rhs[0] == '/' then Join(lhs, rhs[1..])
    else lhs + "/" + rhs
  }

  predicate EndsInSlash(s: string) {
    s != "" && s[|s| - 1] == '/'
  }

  predicate AllSlashes(s: string) {
    forall i :: 0 <= i < |s| ==> s[i] == '/'
  }

  /** A joined path is the left part without the slashes at its end, one slash, and the right part without the
      slashes at its beginning. */
  lemma {:induction false} JoinIsExact(lhs: string, rhs: string, i: nat, j: nat)
    requires i <= |lhs| && AllSlashes(lhs[i..]) && !EndsInSlash(lhs[..i])
    requires j <= |rhs| && AllSlashes(rhs[..j]) && (j < |rhs| ==> rhs[j] != '/')
    ensures Join(lhs, rhs) == lhs[..i] + "/" + rhs[j..]
    decreases |lhs| + |rhs|
  {
    if i < |lhs| {
      var l := lhs[..|lhs| - 1];
      assert lhs[i..][|lhs| - 1 - i] == '/';
      assert l[..i] == lhs[..i] && l[i..] == lhs[i..][..|lhs| - 1 - i];
      JoinIsExact(l, rhs, i, j);
    } else if j > 0 {
      var r := rhs[1..];
      assert lhs[..i] == lhs && rhs[..j][0] == '/';
      assert r[j - 1..] == rhs[j..] && r[..j - 1] == rhs[..j][1..];
      JoinIsExact(lhs, r, i, j - 1);
    } else {
      assert lhs[..i] == lhs && rhs[j..] == rhs;
    }
  }

  /** The tokens of a joined path are those of its parts, whatever slashes surround them. */
  lemma {:induction false} TokensOfJoin(lhs: string, rhs: string)
    ensures Tokens(Join(lhs, rhs)) == Tokens(lhs) + Tokens(rhs)
    decreases |lhs| + |rhs|
  {
    if lhs != "" && lhs[|lhs| - 1] == '/' {
      var l := lhs[..|lhs| - 1];
      TokensOfJoin(l, rhs);
      assert lhs == l + "/" + "";
      TokensConcat(l, "");
    } else if rhs != "" && rhs[0] == '/' {
      TokensOfJoin(lhs, rhs[1..]);
    } else {
      TokensConcat(lhs, rhs);
    }
  }

  /** Whether a joined path ends in a slash depends on its right part alone. */
  lemma {:induction false} JoinEndsInSlash(lhs: string, rhs: string)
    ensures EndsInSlash(Join(lhs, rhs)) <==> rhs == "" || EndsInSlash(rhs)
    decreases |lhs| + |rhs|
  {
    if lhs != "" && lhs[|lhs| - 1] == '/' {
      JoinEndsInSlash(lhs[..|lhs| - 1], rhs);
    } else if rhs != "" && rhs[0] == '/' {
      JoinEndsInSlash(lhs, rhs[1..]);
    }
  }

  /** The root of a view reached by taking subtrees one after the other. */
  function JoinAll(root: string, paths: seq<string>): string {
    if paths == [] then root else Join(JoinAll(root, paths[..|paths| - 1]), paths[|paths| - 1])
  }

  function AllTokens(paths: seq<string>): Path {
    if paths == [] then [] else AllTokens(paths[..|paths| - 1]) + Tokens(paths[|paths| - 1])
  }

  /** However deep the nesting, the tokens are those of all the pieces in order. */
  lemma {:induction false} TokensOfNesting(root: string, paths: seq<string>)
    ensures Tokens(JoinAll(root, paths)) == Tokens(root) + AllTokens(paths)
  {
    if paths != [] {
      var init, last := paths[..|paths| - 1], paths[|paths| - 1];
      TokensOfNesting(root, init);
      TokensOfJoin(JoinAll(root, init), last);
      assert (Tokens(root) + AllTokens(init)) + Tokens(last) == Tokens(root) + (AllTokens(init) + Tokens(last));
    }
  }

  // ---------- leaf and branch ----------

  /** rfind("/"), with -1 for npos. */
  function LastSlash(s: string): (p: int)
    ensures -1 <= p < |s|
    ensures p >= 0 ==> s[p] == '/'
    ensures forall i :: p < i < |s| ==> s[i] != '/'
  {
    if s == "" then -1
    else if s[|s| - 1] == '/' then |s| - 1
    else LastSlash(s[..|s| - 1])
  }

  function Leaf(s: string): string {
    var p := LastSlash(s);
    if p == -1 then s else s[p + 1..]
  }

  function BranchPath(s: string): string {
    var p := LastSlash(s);
    if p == -1 then s else s[..p]
  }

  /** Unless the path ends in a slash, its leaf is its last token; the branch holds the others. */
  lemma LeafIsLastToken(s: string)
    requires s != "" && !EndsInSlash(s)
    ensures Tokens(s) != [] && Tokens(s)[|Tokens(s)| - 1] == Leaf(s)
    ensures LastSlash(s) != -1 ==> Tokens(s) == Tokens(BranchPath(s)) + [Leaf(s)]
  {
    var p := LastSlash(s);
    TokensOfWord(Leaf(s));
    if p != -1 {
      assert s == s[..p] + "/" + s[p + 1..];
      TokensConcat(s[..p], s[p + 1..]);
    }
  }

  /** A path ending in a slash has the empty leaf, which no token equals. */
  lemma LeafOfSlash(s: string)
    requires EndsInSlash(s)
    ensures Leaf(s) == ""
  {}
}
