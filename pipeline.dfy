/** The fetch-then-rule pipelines. A request's outcome is a parameter: the
    `Server` value says how `fetchData(url)` would settle for each endpoint.
    The callback and promise helpers apply one rule to one outcome; the
    sequential pipeline (`getAllDataAsync`) awaits the four requests one after
    another and records, in a trace, each request it issues and each rule it runs. */
module Pipeline {
  import opened Results
  import opened Records
  import opened StableSort
  import opened Rules

  const BaseUrl: string := "https://jsonplaceholder.typicode.com"

  datatype Endpoint = Posts | Comments | Users | Todos

  function Url(e: Endpoint): string {
    BaseUrl + match e
      case Posts => "/posts"
      case Comments => "/comments"
      case Users => "/users"
      case Todos => "/todos"
  }

  /** The four endpoints are requested at four different URLs. */
  lemma UrlInjective(d: Endpoint, e: Endpoint)
    ensures Url(d) == Url(e) <==> d == e
  {
    var n := |BaseUrl| + 1;
    assert Url(Posts)[n] == 'p' && Url(Comments)[n] == 'c' && Url(Users)[n] == 'u' && Url(Todos)[n] == 't';
  }

  /** How the request to each endpoint settles: fulfilled with the decoded
      array, or rejected with the request's error. */
  datatype Server = Server(
    posts: Result<seq<Post>, FetchError>,
    comments: Result<seq<Comment>, FetchError>,
    users: Result<seq<User>, FetchError>,
    todos: Result<seq<Todo>, FetchError>)

  predicate Fails(server: Server, e: Endpoint) {
    match e
      case Posts => server.posts.Failure?
      case Comments => server.comments.Failure?
      case Users => server.users.Failure?
      case Todos => server.todos.Failure?
  }

  /** The position of an endpoint's stage in the sequential pipeline. */
  function Stage(e: Endpoint): nat {
    match e
      case Posts => 0
      case Comments => 1
      case Users => 2
      case Todos => 3
  }

  /** What the sequential pipeline does, in order: a request is issued, or a rule runs. */
  datatype Event = Fetch(url: string) | Rank(endpoint: Endpoint)

  /** The object the sequential pipeline resolves with. */
  datatype AllData = AllData(
    sortedPosts: seq<Post>,
    sortedComments: seq<Comment>,
    filteredUsers: seq<UserSummary>,
    uncompletedTodos: seq<Todo>)

  // ---------------------------------------------------------------- in-place rules

  /** `JSON.parse` hands the rule a fresh array holding the decoded records. */
  method ArrayOf<T>(s: seq<T>) returns (a: array<T>)
    ensures fresh(a) && a[..] == s
  {
    a := new T[|s|](i requires 0 <= i < |s| => s[i]);
  }

  /** The posts rule as the source runs it: sorts the fetched array in place,
      longest title first, and returns its first three records. */
  method RankPosts(posts: array<Post>) returns (top: seq<Post>)
    modifies posts
    ensures posts[..] == Sort(old(posts[..]), ByTitleLengthDesc)
    ensures multiset(posts[..]) == multiset(old(posts[..]))
    ensures top == TopPosts(old(posts[..]))
  {
    SortInPlace(posts, ByTitleLengthDesc);
    SortPermutes(old(posts[..]), ByTitleLengthDesc);
    top := Slice(posts[..], TopK);
  }

  /** The comments rule as the source runs it: sorts the fetched array in
      place by name and returns its first three records. */
  method RankComments(comments: array<Comment>) returns (top: seq<Comment>)
    modifies comments
    ensures comments[..] == Sort(old(comments[..]), ByName)
    ensures multiset(comments[..]) == multiset(old(comments[..]))
    ensures top == TopComments(old(comments[..]))
  {
    SortInPlace(comments, ByName);
    SortPermutes(old(comments[..]), ByName);
    top := Slice(comments[..], TopK);
  }

  // ---------------------------------------------------------------- callback helpers

  /** `getPostsSortedByTitleLength`: what it passes to its callback, as a
      Result: the request's error, or the three posts with the longest titles. */
  method GetPostsSortedByTitleLength(fetched: Result<seq<Post>, FetchError>)
    returns (settled: Result<seq<Post>, FetchError>)
    ensures fetched.Failure? ==> settled == Failure(fetched.error)
    ensures fetched.Success? ==> settled == Success(TopPosts(fetched.value))
  {
    if fetched.Failure? {
      settled := Failure(fetched.error);
    } else {
      var posts := ArrayOf(fetched.value);
      var top := RankPosts(posts);
      settled := Success(top);
    }
  }

  /** `getCommentsSortedByName`, in the same terms. */
  method GetCommentsSortedByName(fetched: Result<seq<Comment>, FetchError>)
    returns (settled: Result<seq<Comment>, FetchError>)
    ensures fetched.Failure? ==> settled == Failure(fetched.error)
    ensures fetched.Success? ==> settled == Success(TopComments(fetched.value))
  {
    if fetched.Failure? {
      settled := Failure(fetched.error);
    } else {
      var comments := ArrayOf(fetched.value);
      var top := RankComments(comments);
      settled := Success(top);
    }
  }

  // ---------------------------------------------------------------- promise helpers

  /** `getUsersWithSelectedFields`: the request's promise, chained with the users rule. */
  function GetUsersWithSelectedFields(fetched: Result<seq<User>, FetchError>)
    : (settled: Result<seq<UserSummary>, FetchError>)
    ensures settled.Failure? <==> fetched.Failure?
    ensures fetched.Failure? ==> settled.error == fetched.error
    ensures fetched.Success? ==> settled == Success(SelectedUsers(fetched.value))
    ensures fetched.Success? ==> |settled.value| == Min(TopK, |fetched.value|)
  {
    var users :- fetched;
    Success(SelectedUsers(users))
  }

  /** `getTodosUncompleted`: the request's promise, chained with the todos rule. */
  function GetTodosUncompleted(fetched: Result<seq<Todo>, FetchError>)
    : (settled: Result<seq<Todo>, FetchError>)
    ensures settled.Failure? <==> fetched.Failure?
    ensures fetched.Failure? ==> settled.error == fetched.error
    ensures fetched.Success? ==> settled == Success(UncompletedTodos(fetched.value))
    ensures fetched.Success? ==> forall t :: t in settled.value ==> t in fetched.value && !t.completed
  {
    var todos :- fetched;
    UncompletedTodosSpec(todos);
    Success(UncompletedTodos(todos))
  }

  // ---------------------------------------------------------------- sequential pipeline

  /** `getAllDataAsync` as a chain of binds: the first rejected request
      rejects the whole call with its error. */
  function AllDataOf(server: Server): (r: Result<AllData, FetchError>)
    ensures r.Success? <==> server.posts.Success? && server.comments.Success? && server.users.Success? && server.todos.Success?
  {
    var posts :- server.posts;
    var comments :- server.comments;
    var users :- server.users;
    var todos :- server.todos;
    Success(AllData(TopPosts(posts), TopComments(comments), SelectedUsers(users), UncompletedTodos(todos)))
  }

  /** The events of one run of the sequential pipeline. */
  function TraceOf(server: Server): (r: seq<Event>)
    ensures 0 < |r| <= 8 && r[0] == Fetch(Url(Posts))
    ensures r[|r| - 1].Fetch? <==> exists e :: Fails(server, e)
  {
    if Fails(server, Posts) then [Fetch(Url(Posts))]
    else if Fails(server, Comments) then [Fetch(Url(Posts)), Rank(Posts), Fetch(Url(Comments))]
    else if Fails(server, Users) then [Fetch(Url(Posts)), Rank(Posts), Fetch(Url(Comments)), Rank(Comments), Fetch(Url(Users))]
    else if Fails(server, Todos) then
      [Fetch(Url(Posts)), Rank(Posts), Fetch(Url(Comments)), Rank(Comments), Fetch(Url(Users)), Rank(Users), Fetch(Url(Todos))]
    else
      [Fetch(Url(Posts)), Rank(Posts), Fetch(Url(Comments)), Rank(Comments), Fetch(Url(Users)), Rank(Users), Fetch(Url(Todos)), Rank(Todos)]
  }

  /** The call resolves exactly when every request succeeds, with the four
      rule outputs; otherwise it rejects with the error of the first failure. */
  lemma AllDataOfOutcome(server: Server)
    ensures AllDataOf(server).Success? <==> forall e :: !Fails(server, e)
    ensures AllDataOf(server).Success? ==> AllDataOf(server).value == AllData(
      TopPosts(server.posts.value), TopComments(server.comments.value),
      SelectedUsers(server.users.value), UncompletedTodos(server.todos.value))
    ensures server.posts.Failure? ==> AllDataOf(server) == Failure(server.posts.error)
    ensures server.posts.Success? && server.comments.Failure? ==>
      AllDataOf(server) == Failure(server.comments.error)
    ensures server.posts.Success? && server.comments.Success? && server.users.Failure? ==>
      AllDataOf(server) == Failure(server.users.error)
    ensures server.posts.Success? && server.comments.Success? && server.users.Success? && server.todos.Failure? ==>
      AllDataOf(server) == Failure(server.todos.error)
  {
    if forall e :: !Fails(server, e) {
      assert !Fails(server, Posts) && !Fails(server, Comments) && !Fails(server, Users) && !Fails(server, Todos);
    } else {
      assert Fails(server, Posts) || Fails(server, Comments) || Fails(server, Users) || Fails(server, Todos);
    }
  }

  /** A request is issued exactly when every earlier request succeeded, and a
      rule runs exactly when its own request and every earlier one succeeded:
      the first failure stops every later request and rule. */
  lemma TraceOfStopsAtFirstFailure(server: Server, e: Endpoint)
    ensures Fetch(Url(e)) in TraceOf(server) <==> forall d :: Stage(d) < Stage(e) ==> !Fails(server, d)
    ensures Rank(e) in TraceOf(server) <==> forall d :: Stage(d) <= Stage(e) ==> !Fails(server, d)
  {
    forall d {
      UrlInjective(d, e);
    }
  }

  /** The decoded body of a fulfilled request, tagged by endpoint. */
  datatype Body =
    | PostsBody(posts: seq<Post>)
    | CommentsBody(comments: seq<Comment>)
    | UsersBody(users: seq<User>)
    | TodosBody(todos: seq<Todo>)

  /** How the request to `e` settles on `server`. */
  function Outcome(server: Server, e: Endpoint): (r: Result<Body, FetchError>)
    ensures r.Failure? <==> Fails(server, e)
  {
    match e
      case Posts => var posts :- server.posts; Success(PostsBody(posts))
      case Comments => var comments :- server.comments; Success(CommentsBody(comments))
      case Users => var users :- server.users; Success(UsersBody(users))
      case Todos => var todos :- server.todos; Success(TodosBody(todos))
  }

  /** The sequential pipeline's view of the API. The outcome of every request
      is fixed by `server`; `log` grows by one event each time a request is
      issued (`FetchData`) or a rule runs (the four rule steps). */
  class Client {
    const server: Server
    var log: seq<Event>

    constructor(server: Server)
      ensures this.server == server && log == []
    {
      this.server := server;
      log := [];
    }

    /** `fetchData(url)` on the endpoint's URL: issuing the request is logged,
        and the result is how that request settles. */
    method FetchData(e: Endpoint) returns (fetched: Result<Body, FetchError>)
      modifies this
      ensures fetched == Outcome(server, e)
      ensures log == old(log) + [Fetch(Url(e))]
    {
      log := log + [Fetch(Url(e))];
      fetched := Outcome(server, e);
    }

    /** The posts rule on a freshly decoded array, sorted in place. */
    method SortPosts(posts: seq<Post>) returns (top: seq<Post>)
      modifies this
      ensures top == TopPosts(posts)
      ensures log == old(log) + [Rank(Posts)]
    {
      var a := ArrayOf(posts);
      top := RankPosts(a);
      log := log + [Rank(Posts)];
    }

    /** The comments rule on a freshly decoded array, sorted in place. */
    method SortComments(comments: seq<Comment>) returns (top: seq<Comment>)
      modifies this
      ensures top == TopComments(comments)
      ensures log == old(log) + [Rank(Comments)]
    {
      var a := ArrayOf(comments);
      top := RankComments(a);
      log := log + [Rank(Comments)];
    }

    /** The users rule: project, then keep three. */
    method SelectUsers(users: seq<User>) returns (top: seq<UserSummary>)
      modifies this
      ensures top == SelectedUsers(users)
      ensures log == old(log) + [Rank(Users)]
    {
      top := SelectedUsers(users);
      log := log + [Rank(Users)];
    }

    /** The todos rule: keep the incomplete ones, then keep three. */
    method FilterTodos(todos: seq<Todo>) returns (top: seq<Todo>)
      modifies this
      ensures top == UncompletedTodos(todos)
      ensures log == old(log) + [Rank(Todos)]
    {
      top := UncompletedTodos(todos);
      log := log + [Rank(Todos)];
    }

    /** `getAllDataAsync`: awaits each request in turn and runs its rule on
        the decoded body. A rejected request propagates out of the `await`
        at once, so no later request is issued and no later rule runs. */
    method GetAllDataAsync() returns (result: Result<AllData, FetchError>)
      modifies this
      ensures result == AllDataOf(server)
      ensures log == old(log) + TraceOf(server)
    {
      var posts :- FetchData(Posts);
      var sortedPosts := SortPosts(posts.posts);
      var comments :- FetchData(Comments);
      var sortedComments := SortComments(comments.comments);
      var users :- FetchData(Users);
      var filteredUsers := SelectUsers(users.users);
      var todos :- FetchData(Todos);
      var uncompletedTodos := FilterTodos(todos.todos);
      result := Success(AllData(sortedPosts, sortedComments, filteredUsers, uncompletedTodos));
    }
  }
}
