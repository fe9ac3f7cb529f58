/** How a request reaches an endpoint.

    The routes are tried in the order they are registered and the first one
    whose method and path both match handles the request. A path parameter
    such as `{note_id}` matches any one non-empty path segment, so a route
    with a parameter registered before a route with a literal segment in the
    same place takes that literal's requests for itself.
 */
module NoteRoutes {
  import opened NoteStore

  datatype Verb = Get | Post | Patch | Delete

  /** One segment of a route's path pattern: a literal or a parameter. */
  datatype Segment = Lit(text: string) | Param

  datatype Handler = CreateHandler | GetNoteHandler | GetNoteInfoHandler
                   | UpdateHandler | DeleteHandler | ListHandler

  datatype Route = Route(verb: Verb, pattern: seq<Segment>, handler: Handler)

  /** A handler together with the values of its path parameters. */
  datatype Call = Call(handler: Handler, args: seq<string>)

  /** A path parameter takes one whole, non-empty segment. */
  predicate SegmentMatches(seg: Segment, part: string) {
    match seg
    case Lit(text) => part == text
    case Param => part != [] && '/' !in part
  }

  predicate RouteMatches(route: Route, verb: Verb, path: seq<string>) {
    && route.verb == verb
    && |route.pattern| == |path|
    && forall i :: 0 <= i < |path| ==> SegmentMatches(route.pattern[i], path[i])
  }

  /** The path segments that stand where the pattern has parameters. */
  function Params(pattern: seq<Segment>, path: seq<string>): seq<string>
    requires |pattern| == |path|
  {
    if pattern == [] then []
    else (if pattern[0].Param? then [path[0]] else []) + Params(pattern[1..], path[1..])
  }

  function CallOf(route: Route, path: seq<string>): Call
    requires |route.pattern| == |path|
  {
    Call(route.handler, Params(route.pattern, path))
  }

  /** The call the first matching route makes, if any route matches. */
  function Dispatch(table: seq<Route>, verb: Verb, path: seq<string>): (r: Option<Call>)
    ensures r.None? <==> forall i :: 0 <= i < |table| ==> !RouteMatches(table[i], verb, path)
    ensures r.Some? ==> exists i :: 0 <= i < |table| && RouteMatches(table[i], verb, path)
                                   && r.value == CallOf(table[i], path)
                                   && forall j :: 0 <= j < i ==> !RouteMatches(table[j], verb, path)
  {
    if table == [] then None
    else if RouteMatches(table[0], verb, path) then Some(CallOf(table[0], path))
    else
      var r := Dispatch(table[1..], verb, path);
      assert forall i :: 1 <= i < |table| ==> table[i] == table[1..][i - 1];
      r
  }

  const CreateRoute := Route(Post, [Lit("notes"), Lit("create")], CreateHandler)
  const GetNoteRoute := Route(Get, [Lit("notes"), Param], GetNoteHandler)
  const GetNoteInfoRoute := Route(Get, [Lit("notes"), Lit("info"), Param], GetNoteInfoHandler)
  const UpdateRoute := Route(Patch, [Lit("notes"), Lit("update"), Param], UpdateHandler)
  const DeleteRoute := Route(Delete, [Lit("notes"), Lit("delete"), Param], DeleteHandler)
  const ListRoute := Route(Get, [Lit("notes"), Lit("list")], ListHandler)

  /** The routes in the order the service registers them: `GET /notes/list`
      comes last, after `GET /notes/{note_id}`. */
  const RegisteredRoutes := [CreateRoute, GetNoteRoute, GetNoteInfoRoute, UpdateRoute, DeleteRoute, ListRoute]

  /** The evidently intended order: the literal `/notes/list` ahead of the
      parameter route that would otherwise take it. */
  const IntendedRoutes := [CreateRoute, ListRoute, GetNoteRoute, GetNoteInfoRoute, UpdateRoute, DeleteRoute]

  const ListPath := ["notes", "list"]

  const OtherRoutes := [CreateRoute, GetNoteRoute, GetNoteInfoRoute, UpdateRoute, DeleteRoute]

  /** The list route matches `GET /notes/list` and nothing else. */
  lemma ListRouteMatchesOnlyListPath(verb: Verb, path: seq<string>)
    ensures RouteMatches(ListRoute, verb, path) <==> verb == Get && path == ListPath
  {
  }

  /** As registered, `GET /notes/list` is taken by the `{note_id}` route. */
  lemma ListPathDispatchAsRegistered()
    ensures Dispatch(RegisteredRoutes, Get, ListPath) == Some(Call(GetNoteHandler, ["list"]))
  {
    assert !RouteMatches(CreateRoute, Get, ListPath);
    assert RouteMatches(GetNoteRoute, Get, ListPath);
    assert Params(GetNoteRoute.pattern, ListPath) == ["list"];
  }

  /** As registered, `GET /notes/list` is handled by `get_note` with the id
      "list"; on a store the service wrote that answer is 401 or 404, never a
      listing, because "list" is not a note id. */
  lemma ListRequestReachesGetNote(tokens: TokenFile, notes: map<NoteId, Note>, token: string)
    requires StoreValid(notes)
    ensures Dispatch(RegisteredRoutes, Get, ListPath) == Some(Call(GetNoteHandler, ["list"]))
    ensures GetNote(tokens, notes, "list", token).Unauthorized? || GetNote(tokens, notes, "list", token).NotFound?
  {
    ListPathDispatchAsRegistered();
    assert !IsUuidText("list");
  }

  /** As registered, no request at all reaches `list_notes`: whenever the
      list route matches, the `{note_id}` route before it matches too. */
  lemma ListNotesUnreachableAsRegistered(verb: Verb, path: seq<string>)
    ensures Dispatch(RegisteredRoutes, verb, path) != Some(Call(ListHandler, []))
  {
  }

  /** With the intended order `GET /notes/list` reaches `list_notes`. */
  lemma ListRequestReachesListNotes()
    ensures Dispatch(IntendedRoutes, Get, ListPath) == Some(Call(ListHandler, []))
  {
  }

  /** A handler that no route of the table names is never dispatched to. */
  lemma DispatchUsesTableHandlers(table: seq<Route>, verb: Verb, path: seq<string>, h: Handler)
    requires forall i :: 0 <= i < |table| ==> table[i].handler != h
    ensures Dispatch(table, verb, path).None? || Dispatch(table, verb, path).value.handler != h
  {
  }

  /** Putting a route that does not match a request anywhere in the table
      leaves that request's dispatch as it was. */
  lemma {:induction false} DispatchSkipsNonMatching(table: seq<Route>, k: nat, route: Route, verb: Verb, path: seq<string>)
    requires k <= |table|
    requires !RouteMatches(route, verb, path)
    ensures Dispatch(table[..k] + [route] + table[k..], verb, path) == Dispatch(table, verb, path)
  {
    var t := table[..k] + [route] + table[k..];
    if k == 0 {
      assert t[0] == route && t[1..] == table;
      assert Dispatch(t, verb, path) == Dispatch(t[1..], verb, path);
    } else {
      assert t[0] == table[0];
      if !RouteMatches(table[0], verb, path) {
        assert t[1..] == table[1..][..k - 1] + [route] + table[1..][k - 1..];
        DispatchSkipsNonMatching(table[1..], k - 1, route, verb, path);
        assert Dispatch(t, verb, path) == Dispatch(t[1..], verb, path);
      }
    }
  }

  /** The intended order changes nothing but `GET /notes/list`: every other
      request reaches the same handler with the same arguments as before. */
  lemma IntendedRoutesAgreeElsewhere(verb: Verb, path: seq<string>)
    requires verb != Get || path != ListPath
    ensures Dispatch(IntendedRoutes, verb, path) == Dispatch(RegisteredRoutes, verb, path)
  {
    ListRouteMatchesOnlyListPath(verb, path);
    assert RegisteredRoutes == OtherRoutes[..5] + [ListRoute] + OtherRoutes[5..];
    assert IntendedRoutes == OtherRoutes[..1] + [ListRoute] + OtherRoutes[1..];
    DispatchSkipsNonMatching(OtherRoutes, 5, ListRoute, verb, path);
    DispatchSkipsNonMatching(OtherRoutes, 1, ListRoute, verb, path);
  }
}
