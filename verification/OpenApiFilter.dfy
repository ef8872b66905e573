// The published OpenAPI schema: operations with hidden tags removed, bearer
// security set, and the result kept for later calls.
module OpenApiFilter {
  import opened Basics

  // An entry of a path: an operation, or something that is not one (no tags).
  datatype Operation = Operation(tags: set<string>, secured: bool)

  type Paths = map<string, map<string, Operation>>

  // `isHidden` is the case-insensitive membership in the hidden tags.
  predicate Hidden(op: Operation, isHidden: string -> bool) {
    exists tag :: tag in op.tags && isHidden(tag)
  }

  predicate AllHidden(methods: map<string, Operation>, isHidden: string -> bool) {
    methods.Keys != {} && forall m :: m in methods ==> Hidden(methods[m], isHidden)
  }

  // ---------- the one-pass filter ----------

  function Visible(paths: Paths, isHidden: string -> bool): Paths {
    map p | p in paths && !AllHidden(paths[p], isHidden) ::
      map m | m in paths[p] && !Hidden(paths[p][m], isHidden) :: paths[p][m]
  }

  predicate Prefixed(path: string, prefix: string) {
    prefix <= path
  }

  predicate NeedsBearer(path: string, public: set<string>) {
    (Prefixed(path, "/api") || Prefixed(path, "/admin")) && path !in public
  }

  function Secured(path: string, op: Operation, public: set<string>): Operation {
    if NeedsBearer(path, public) then op.(secured := true)
    else if path in public then op.(secured := false)
    else op
  }

  function Published(paths: Paths, isHidden: string -> bool, public: set<string>): Paths {
    var visible := Visible(paths, isHidden);
    map p | p in visible :: map m | m in visible[p] :: Secured(p, visible[p][m], public)
  }

  // A corollary of what CustomOpenApi ensures, read entry by entry.  Exactly the
  // visible operations are published, a path goes exactly when it had
  // entries and all were hidden, and for a schema without prior security the
  // bearer is required on exactly the non-public /api and /admin paths.
  lemma PublishedIff(paths: Paths, isHidden: string -> bool, public: set<string>, path: string, name: string)
    ensures var r := Published(paths, isHidden, public);
            && (path in r <==> path in paths && !AllHidden(paths[path], isHidden))
            && (path in r && name in r[path] <==>
                path in paths && name in paths[path] && !Hidden(paths[path][name], isHidden))
            && (path in r && name in r[path] && !paths[path][name].secured ==>
                  (r[path][name].secured <==> NeedsBearer(path, public)))
  {
  }

  // The same with every condition written out, and what an entry then says.
  lemma PublishedMeaning(paths: Paths, isHidden: string -> bool, public: set<string>, path: string, name: string)
    ensures var r := Published(paths, isHidden, public);
            && (path in r <==>
                && path in paths
                && (paths[path] == map[] ||
                    exists m :: m in paths[path] && forall tag :: tag in paths[path][m].tags ==> !isHidden(tag)))
            && (path in r && name in r[path] <==>
                && path in paths && name in paths[path]
                && forall tag :: tag in paths[path][name].tags ==> !isHidden(tag))
            && (path in r && name in r[path] ==>
                  var was, op := paths[path][name], r[path][name];
                  && op.tags == was.tags
                  && (path in public ==> !op.secured)
                  && (path !in public && ("/api" <= path || "/admin" <= path) ==> op.secured)
                  && (path !in public && !("/api" <= path) && !("/admin" <= path) ==> op.secured == was.secured))
  {
    if path in paths {
      assert paths[path] == map[] <==> paths[path].Keys == {};
      forall m | m in paths[path]
        ensures !Hidden(paths[path][m], isHidden) <==>
                forall tag :: tag in paths[path][m].tags ==> !isHidden(tag)
      {
      }
    }
  }

  function HiddenNames(methods: map<string, Operation>, isHidden: string -> bool): set<string> {
    set m | m in methods && Hidden(methods[m], isHidden)
  }

  lemma {:induction false} SameSize(a: set<string>, b: set<string>)
    requires a <= b && |a| == |b|
    ensures a == b
  {
    if a != {} {
      var x :| x in a;
      SameSize(a - {x}, b - {x});
    } else {
      assert b == {};
    }
  }

  // Comparing counts decides whether a path goes as a whole.
  lemma CountingFindsAllHidden(methods: map<string, Operation>, isHidden: string -> bool)
    ensures var names := HiddenNames(methods, isHidden);
            names != {} && |names| == |methods| <==> AllHidden(methods, isHidden)
  {
    var names := HiddenNames(methods, isHidden);
    assert |methods| == |methods.Keys| && names <= methods.Keys;
    if |names| == |methods| {
      SameSize(names, methods.Keys);
    }
    if AllHidden(methods, isHidden) {
      assert names == methods.Keys;
    }
  }

  // ---------- the application ----------

  class Application {
    var schema: Option<Paths>  // app.openapi_schema

    constructor ()
      ensures schema == None
    {
      schema := None;
    }

    // Collects the removals of all paths first.
    method CollectRemovals(paths: Paths, isHidden: string -> bool)
      returns (dropped: set<string>, trimmed: map<string, set<string>>)
      ensures dropped == set p | p in paths && AllHidden(paths[p], isHidden)
      ensures forall p :: p in trimmed ==> p in paths && p !in dropped
                                           && trimmed[p] == HiddenNames(paths[p], isHidden)
      ensures forall p :: p in paths && p !in dropped && HiddenNames(paths[p], isHidden) != {} ==> p in trimmed
    {
      dropped, trimmed := {}, map[];
      var rest := paths.Keys;
      while rest != {}
        invariant rest <= paths.Keys
        invariant dropped == set p | p in paths && p !in rest && AllHidden(paths[p], isHidden)
        invariant forall p :: p in trimmed ==>
                                && p in paths && p !in rest && p !in dropped
                                && trimmed[p] == HiddenNames(paths[p], isHidden)
        invariant forall p :: p in paths && p !in rest && p !in dropped && HiddenNames(paths[p], isHidden) != {} ==>
                              p in trimmed
        decreases rest
      {
        var p :| p in rest;
        rest := rest - {p};
        var hidden := HiddenNames(paths[p], isHidden);
        CountingFindsAllHidden(paths[p], isHidden);
        if hidden != {} {
          if |hidden| == |paths[p]| {
            dropped := dropped + {p};
          } else {
            trimmed := trimmed[p := hidden];
          }
        }
      }
    }

    method RemoveCollected(paths: Paths, dropped: set<string>, trimmed: map<string, set<string>>) returns (r: Paths)
      ensures r == map p | p in paths && p !in dropped :: if p in trimmed then paths[p] - trimmed[p] else paths[p]
    {
      r := paths;
      var rest := trimmed.Keys;
      while rest != {}
        invariant r == map p | p in paths :: if p in trimmed && p !in rest then paths[p] - trimmed[p] else paths[p]
        decreases rest
      {
        var p :| p in rest;
        rest := rest - {p};
        if p in r {
          r := r[p := r[p] - trimmed[p]];
        }
      }
      r := r - dropped;
    }

    method CustomOpenApi(paths: Paths, isHidden: string -> bool, public: set<string>) returns (r: Paths)
      modifies this
      ensures schema == Some(r)
      ensures r == if old(schema).Some? then old(schema).value else Published(paths, isHidden, public)
    {
      if schema.Some? {
        return schema.value;
      }
      var dropped, trimmed := CollectRemovals(paths, isHidden);
      r := RemoveCollected(paths, dropped, trimmed);
      forall p | p in r ensures r[p] == Visible(paths, isHidden)[p] {
        assert p !in trimmed ==> HiddenNames(paths[p], isHidden) == {};
        assert forall m :: m in paths[p] && Hidden(paths[p][m], isHidden) ==> m in HiddenNames(paths[p], isHidden);
      }
      assert r == Visible(paths, isHidden);
      r := map p | p in r :: map m | m in r[p] :: Secured(p, r[p][m], public);
      schema := Some(r);
    }
  }
}
