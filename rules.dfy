/** The four top-3 rules applied to the fetched collections. Each is a function
    of the fetched sequence; the posts and comments rules sort with a
    comparator first (see StableSort), and every rule ends with `.slice(0, 3)`. */
module Rules {
  import opened Records
  import opened StableSort

  /** The number of records each rule keeps. */
  const TopK: nat := 3

  function Min(a: int, b: int): int {
    if a <= b then a else b
  }

  /** `s.slice(0, n)`: the first `n` elements, or all of them when there are fewer. */
  function Slice<T>(s: seq<T>, n: nat): (r: seq<T>)
    ensures |r| == Min(n, |s|)
    ensures forall i :: 0 <= i < |r| ==> r[i] == s[i]
  {
    if |s| <= n then s else s[..n]
  }

  // ---------------------------------------------------------------- top-K of a sort

  /** Keeping the first `k` records of a sort keeps `min(k, |s|)` of the
      input's records and invents none. */
  lemma TopOfSortCount<T>(s: seq<T>, cmp: (T, T) -> int, k: nat)
    ensures var r := Slice(Sort(s, cmp), k);
      |r| == Min(k, |s|) && multiset(r) <= multiset(s)
  {
    var t := Sort(s, cmp);
    SortPermutes(s, cmp);
    var r := Slice(t, k);
    assert t == r + t[|r|..];
    assert multiset(t) == multiset(r) + multiset(t[|r|..]);
  }

  /** The kept records are in comparator order. */
  lemma TopOfSortSorted<T(!new)>(s: seq<T>, cmp: (T, T) -> int, k: nat)
    requires Consistent(cmp)
    ensures Sorted(Slice(Sort(s, cmp), k), cmp)
  {
    SortSorted(s, cmp);
  }

  /** No omitted record should have come before a kept one. */
  lemma TopOfSortOmitted<T(!new)>(s: seq<T>, cmp: (T, T) -> int, k: nat)
    requires Consistent(cmp)
    ensures var r := Slice(Sort(s, cmp), k);
      forall x, y :: x in multiset(s) - multiset(r) && y in r ==> cmp(y, x) <= 0
  {
    var t := Sort(s, cmp);
    var r := Slice(t, k);
    var rest := t[|r|..];
    assert t == r + rest;
    SortSorted(s, cmp);
    SortPermutes(s, cmp);
    assert multiset(s) - multiset(r) == multiset(rest);
    forall x, y | x in multiset(rest) && y in r
      ensures cmp(y, x) <= 0
    {
      var i :| 0 <= i < |rest| && rest[i] == x;
      var j :| 0 <= j < |r| && r[j] == y;
      assert t[|r| + i] == x && t[j] == y;
    }
  }

  /** Among tied records the earliest fetched ones are kept, in fetched order. */
  lemma TopOfSortStable<T(!new)>(s: seq<T>, cmp: (T, T) -> int, k: nat, y: T)
    requires Consistent(cmp)
    ensures Ties(Slice(Sort(s, cmp), k), y, cmp) <= Ties(s, y, cmp)
  {
    var t := Sort(s, cmp);
    var r := Slice(t, k);
    assert t == r + t[|r|..];
    SortStable(s, y, cmp);
    TiesAppend(r, t[|r|..], y, cmp);
  }

  // ---------------------------------------------------------------- posts

  /** The posts comparator: the difference of the two title lengths, negative
      when `a` has the longer title, so longer titles sort first. */
  function ByTitleLengthDesc(a: Post, b: Post): (r: int)
    ensures r < 0 <==> |a.title| > |b.title|
    ensures r == 0 <==> |a.title| == |b.title|
  {
    |b.title| - |a.title|
  }

  lemma ByTitleLengthDescConsistent()
    ensures Consistent(ByTitleLengthDesc)
  {
  }

  /** The posts rule: sort by title length, longest first, and keep three. */
  function TopPosts(posts: seq<Post>): (r: seq<Post>)
    ensures |r| == Min(TopK, |posts|)
  {
    Slice(Sort(posts, ByTitleLengthDesc), TopK)
  }

  lemma TopPostsCount(posts: seq<Post>)
    ensures |TopPosts(posts)| == Min(TopK, |posts|)
    ensures multiset(TopPosts(posts)) <= multiset(posts)
  {
    TopOfSortCount(posts, ByTitleLengthDesc, TopK);
  }

  lemma TopPostsLongestFirst(posts: seq<Post>)
    ensures var r := TopPosts(posts);
      forall i, j :: 0 <= i < j < |r| ==> |r[i].title| >= |r[j].title|
  {
    ByTitleLengthDescConsistent();
    TopOfSortSorted(posts, ByTitleLengthDesc, TopK);
    var r := TopPosts(posts);
    assert forall i, j :: 0 <= i < j < |r| ==> ByTitleLengthDesc(r[i], r[j]) <= 0;
  }

  lemma TopPostsOmittedNotLonger(posts: seq<Post>)
    ensures var r := TopPosts(posts);
      forall p, q :: p in multiset(posts) - multiset(r) && q in r ==> |p.title| <= |q.title|
  {
    ByTitleLengthDescConsistent();
    TopOfSortOmitted(posts, ByTitleLengthDesc, TopK);
    var r := TopPosts(posts);
    forall p, q | p in multiset(posts) - multiset(r) && q in r
      ensures |p.title| <= |q.title|
    {
      assert ByTitleLengthDesc(q, p) <= 0;
    }
  }

  /** Posts with titles of equal length are kept earliest fetched first. */
  lemma TopPostsStable(posts: seq<Post>, y: Post)
    ensures Ties(TopPosts(posts), y, ByTitleLengthDesc) <= Ties(posts, y, ByTitleLengthDesc)
  {
    ByTitleLengthDescConsistent();
    TopOfSortStable(posts, ByTitleLengthDesc, TopK, y);
  }

  // ---------------------------------------------------------------- comments

  /** `x.localeCompare(y)`, with collation replaced by the order of UTF-16
      code units: negative, zero or positive as `x` sorts before, with or after `y`. */
  function CodeUnitCompare(x: JsString, y: JsString): (r: int)
    ensures -1 <= r <= 1
  {
    if x == [] && y == [] then 0
    else if x == [] then -1
    else if y == [] then 1
    else if x[0] < y[0] then -1
    else if x[0] > y[0] then 1
    else CodeUnitCompare(x[1..], y[1..])
  }

  lemma {:induction false} CodeUnitCompareAntisymmetric(x: JsString, y: JsString)
    ensures CodeUnitCompare(x, y) == -CodeUnitCompare(y, x)
    decreases |x|
  {
    if x != [] && y != [] && x[0] == y[0] {
      CodeUnitCompareAntisymmetric(x[1..], y[1..]);
    }
  }

  lemma {:induction false} CodeUnitCompareZeroIffEqual(x: JsString, y: JsString)
    ensures CodeUnitCompare(x, y) == 0 <==> x == y
    decreases |x|
  {
    if x != [] && y != [] && x[0] == y[0] {
      CodeUnitCompareZeroIffEqual(x[1..], y[1..]);
      assert x == [x[0]] + x[1..] && y == [y[0]] + y[1..];
    }
  }

  lemma {:induction false} CodeUnitCompareTransitive(x: JsString, y: JsString, z: JsString)
    ensures CodeUnitCompare(x, y) <= 0 && CodeUnitCompare(y, z) <= 0 ==> CodeUnitCompare(x, z) <= 0
    decreases |x|
  {
    if x != [] && y != [] && z != [] && x[0] == y[0] == z[0] {
      CodeUnitCompareTransitive(x[1..], y[1..], z[1..]);
    }
  }

  /** The comments comparator: compares the two names, negative when `a`'s
      name sorts first. */
  function ByName(a: Comment, b: Comment): (r: int)
    ensures -1 <= r <= 1
    ensures r == -CodeUnitCompare(b.name, a.name)
  {
    CodeUnitCompareAntisymmetric(a.name, b.name);
    CodeUnitCompare(a.name, b.name)
  }

  lemma ByNameConsistent()
    ensures Consistent(ByName)
  {
    forall a, b, c
      ensures ConsistentAt(ByName, a, b, c)
    {
      CodeUnitCompareAntisymmetric(a.name, b.name);
      CodeUnitCompareTransitive(a.name, b.name, c.name);
    }
  }

  /** The comments rule: sort by name, ascending, and keep three. */
  function TopComments(comments: seq<Comment>): (r: seq<Comment>)
    ensures |r| == Min(TopK, |comments|)
  {
    Slice(Sort(comments, ByName), TopK)
  }

  lemma TopCommentsCount(comments: seq<Comment>)
    ensures |TopComments(comments)| == Min(TopK, |comments|)
    ensures multiset(TopComments(comments)) <= multiset(comments)
  {
    TopOfSortCount(comments, ByName, TopK);
  }

  lemma TopCommentsByName(comments: seq<Comment>)
    ensures var r := TopComments(comments);
      forall i, j :: 0 <= i < j < |r| ==> CodeUnitCompare(r[i].name, r[j].name) <= 0
  {
    ByNameConsistent();
    TopOfSortSorted(comments, ByName, TopK);
    var r := TopComments(comments);
    assert forall i, j :: 0 <= i < j < |r| ==> ByName(r[i], r[j]) <= 0;
  }

  lemma TopCommentsOmittedNotBefore(comments: seq<Comment>)
    ensures var r := TopComments(comments);
      forall c, d :: c in multiset(comments) - multiset(r) && d in r ==> CodeUnitCompare(d.name, c.name) <= 0
  {
    ByNameConsistent();
    TopOfSortOmitted(comments, ByName, TopK);
    var r := TopComments(comments);
    forall c, d | c in multiset(comments) - multiset(r) && d in r
      ensures CodeUnitCompare(d.name, c.name) <= 0
    {
      assert ByName(d, c) <= 0;
    }
  }

  /** Comments with the same name are kept earliest fetched first. */
  lemma TopCommentsStable(comments: seq<Comment>, y: Comment)
    ensures Ties(TopComments(comments), y, ByName) <= Ties(comments, y, ByName)
  {
    ByNameConsistent();
    TopOfSortStable(comments, ByName, TopK, y);
  }

  /** Comments tie exactly when their names are the same string, so stability
      keeps same-named comments in fetched order. */
  lemma ByNameTiesAreSameName(c: Comment, d: Comment)
    ensures ByName(c, d) == 0 <==> c.name == d.name
  {
    CodeUnitCompareZeroIffEqual(c.name, d.name);
  }

  // ---------------------------------------------------------------- users

  /** The projection applied to each user: a new record holding the user's
      id, name, username, email and phone, and nothing else. */
  function Project(u: User): (r: UserSummary)
    ensures r.id == u.id && r.name == u.name && r.username == u.username
    ensures r.email == u.email && r.phone == u.phone
  {
    UserSummary(u.id, u.name, u.username, u.email, u.phone)
  }

  /** Mapping the projection above over the fetched users. */
  function ProjectAll(users: seq<User>): (r: seq<UserSummary>)
    ensures |r| == |users|
    ensures forall i :: 0 <= i < |r| ==> r[i] == Project(users[i])
  {
    if users == [] then [] else [Project(users[0])] + ProjectAll(users[1..])
  }

  /** The users rule: project every user, then keep three. */
  function SelectedUsers(users: seq<User>): (r: seq<UserSummary>)
    ensures |r| == Min(TopK, |users|)
    ensures forall i :: 0 <= i < |r| ==> r[i] == Project(users[i])
  {
    Slice(ProjectAll(users), TopK)
  }

  lemma SelectedUsersSpec(users: seq<User>)
    ensures var r := SelectedUsers(users);
      && |r| == Min(TopK, |users|)
      && forall i :: 0 <= i < |r| ==>
           && r[i].id == users[i].id && r[i].name == users[i].name
           && r[i].username == users[i].username && r[i].email == users[i].email
           && r[i].phone == users[i].phone
  {
  }

  /** Projection keeps the five fields and drops only the others: two users
      project alike exactly when they differ at most in their other fields. */
  lemma ProjectForgetsOnlyOtherFields(u: User, v: User)
    ensures Project(u) == Project(v) <==> u.(otherFields := v.otherFields) == v
  {
  }

  /** Mapping every user and then slicing equals projecting only the first three. */
  lemma ProjectAllSliceCommute(users: seq<User>, k: nat)
    ensures Slice(ProjectAll(users), k) == ProjectAll(Slice(users, k))
  {
  }

  // ---------------------------------------------------------------- todos

  /** Filtering the fetched todos down to those whose `completed` is false. */
  function Incomplete(todos: seq<Todo>): (r: seq<Todo>)
    ensures |r| <= |todos|
    ensures forall i :: 0 <= i < |r| ==> !r[i].completed
  {
    if todos == [] then []
    else if todos[0].completed then Incomplete(todos[1..])
    else [todos[0]] + Incomplete(todos[1..])
  }

  /** The filter keeps exactly the incomplete todos. */
  lemma {:induction false} IncompleteMembers(todos: seq<Todo>, t: Todo)
    ensures t in Incomplete(todos) <==> t in todos && !t.completed
    decreases |todos|
  {
    if todos != [] {
      IncompleteMembers(todos[1..], t);
      assert todos == [todos[0]] + todos[1..];
    }
  }

  /** The todos rule: keep the incomplete todos, then keep three. */
  function UncompletedTodos(todos: seq<Todo>): (r: seq<Todo>)
    ensures |r| <= TopK
    ensures forall i :: 0 <= i < |r| ==> !r[i].completed
  {
    Slice(Incomplete(todos), TopK)
  }

  /** Filtering keeps order: filtering a concatenation concatenates the filtered parts. */
  lemma {:induction false} IncompleteAppend(a: seq<Todo>, b: seq<Todo>)
    ensures Incomplete(a + b) == Incomplete(a) + Incomplete(b)
    decreases |a|
  {
    if a != [] {
      IncompleteAppend(a[1..], b);
      assert (a + b)[1..] == a[1..] + b;
    } else {
      assert a + b == b;
    }
  }

  lemma SliceCons<T>(x: T, s: seq<T>, k: nat)
    requires k > 0
    ensures Slice([x] + s, k) == [x] + Slice(s, k - 1)
  {
    if |s| > k - 1 {
      assert ([x] + s)[..k] == [x] + s[..k - 1];
    }
  }

  lemma {:induction false} SliceOfIncompleteIsPrefixFilter(todos: seq<Todo>, k: nat)
    ensures exists n :: (0 <= n <= |todos|
      && Slice(Incomplete(todos), k) == Incomplete(todos[..n])
      && (n == |todos| || |Slice(Incomplete(todos), k)| == k))
    decreases |todos|
  {
    if todos == [] || k == 0 {
      assert todos[..0] == [];
      if todos == [] {
        assert todos[..0] == todos;
      }
      assert Slice(Incomplete(todos), k) == Incomplete(todos[..0]);
    } else {
      var t, rest := todos[0], todos[1..];
      var k' := if t.completed then k else k - 1;
      SliceOfIncompleteIsPrefixFilter(rest, k');
      var m :| 0 <= m <= |rest|
        && Slice(Incomplete(rest), k') == Incomplete(rest[..m])
        && (m == |rest| || |Slice(Incomplete(rest), k')| == k');
      var prefix := todos[..m + 1];
      assert prefix[0] == t && prefix[1..] == rest[..m];
      if t.completed {
        assert Incomplete(prefix) == Incomplete(rest[..m]);
        assert Incomplete(todos) == Incomplete(rest);
      } else {
        assert Incomplete(prefix) == [t] + Incomplete(rest[..m]);
        assert Incomplete(todos) == [t] + Incomplete(rest);
        SliceCons(t, Incomplete(rest), k);
      }
      assert Slice(Incomplete(todos), k) == Incomplete(prefix);
    }
  }

  /** The todos rule returns the incomplete todos among the first `n` fetched,
      for some `n`, in fetched order; it stops short of the whole list only
      once it holds three. */
  lemma UncompletedTodosSpec(todos: seq<Todo>)
    ensures var r := UncompletedTodos(todos);
      && |r| == Min(TopK, |Incomplete(todos)|)
      && (forall t :: t in r ==> t in todos && !t.completed)
      && exists n :: 0 <= n <= |todos| && r == Incomplete(todos[..n]) && (n == |todos| || |r| == TopK)
  {
    SliceOfIncompleteIsPrefixFilter(todos, TopK);
    var r := UncompletedTodos(todos);
    forall t | t in r
      ensures t in todos && !t.completed
    {
      IncompleteMembers(todos, t);
    }
  }

  // ---------------------------------------------------------------- worked examples

  /** Titles "a", "abc", "ab", "abcd" rank as "abcd", "abc", "ab". */
  lemma PostsScenario()
    ensures var a, abc, ab, abcd := Post(1, 1, [97], []), Post(2, 1, [97, 98, 99], []), Post(3, 1, [97, 98], []), Post(4, 1, [97, 98, 99, 100], []);
      TopPosts([a, abc, ab, abcd]) == [abcd, abc, ab]
  {
    var a, abc, ab, abcd := Post(1, 1, [97], []), Post(2, 1, [97, 98, 99], []), Post(3, 1, [97, 98], []), Post(4, 1, [97, 98, 99, 100], []);
    var cmp := ByTitleLengthDesc;
    var s := [a, abc, ab, abcd];
    assert s[..3] == [a, abc, ab] && s[..3][..2] == [a, abc] && s[..3][..2][..1] == [a];
    assert Sort([a], cmp) == [a] by { assert [a][..0] == []; }
    assert Insert([a], abc, cmp) == [abc, a] by { assert [a][..0] == []; }
    assert Insert([abc, a], ab, cmp) == [abc, ab, a] by { assert [abc, a][..1] == [abc]; }
    assert Insert([abc], abcd, cmp) == [abcd, abc] by { assert [abc][..0] == []; }
    assert Insert([abc, ab], abcd, cmp) == [abcd, abc, ab] by { assert [abc, ab][..1] == [abc]; }
    assert Insert([abc, ab, a], abcd, cmp) == [abcd, abc, ab, a] by { assert [abc, ab, a][..2] == [abc, ab]; }
    assert Sort([a, abc], cmp) == [abc, a];
    assert Sort([a, abc, ab], cmp) == [abc, ab, a];
    assert Sort(s, cmp) == [abcd, abc, ab, a];
    assert [abcd, abc, ab, a][..3] == [abcd, abc, ab];
  }
  /** Of completed, "x", "y", completed, the rule keeps "x" and "y". */
  lemma TodosScenario()
    ensures var t1, x, y, t4 := Todo(1, 1, [], true), Todo(2, 1, [120], false), Todo(3, 1, [121], false), Todo(4, 1, [], true);
      UncompletedTodos([t1, x, y, t4]) == [x, y]
  {
    var t1, x, y, t4 := Todo(1, 1, [], true), Todo(2, 1, [120], false), Todo(3, 1, [121], false), Todo(4, 1, [], true);
    var s := [t1, x, y, t4];
    assert s[1..] == [x, y, t4] && s[1..][1..] == [y, t4] && s[1..][1..][1..] == [t4] && [t4][1..] == [];
    assert Incomplete([t4]) == [];
    assert Incomplete([y, t4]) == [y];
    assert Incomplete([x, y, t4]) == [x, y];
    assert Incomplete(s) == [x, y];
  }
}
