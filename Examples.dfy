/**
 * Concrete instances of the ranking and matching rules. Each path is given
 * by its parts; `JoinPath(["users", "42"])` is the path "/users/42", and each
 * lemma also states the literal text of its paths.
 */
module Examples {
  import opened Wrappers
  import opened Parts
  import opened Priority
  import opened Matching

  /** "/users/:id" matches "/users/42" and binds id to "42". */
  lemma MatchUsersId(pathname: string, pattern: string)
    requires pathname == JoinPath(["users", "42"]) && pattern == JoinPath(["users", ":id"])
    ensures Matches(pathname, pattern) == Match(map["id" := "42"])
  {
    GetPartsJoinPath(["users", "42"]);
    GetPartsJoinPath(["users", ":id"]);
    assert Classify(":id") == Dynamic("id");
  }

  /** "/users/:id" does not match "/accounts/42": the static part differs. */
  lemma NoMatchAccounts(pathname: string, pattern: string)
    requires pathname == JoinPath(["accounts", "42"]) && pattern == JoinPath(["users", ":id"])
    ensures Matches(pathname, pattern) == NoMatch
  {
    GetPartsJoinPath(["accounts", "42"]);
    GetPartsJoinPath(["users", ":id"]);
    assert FindMismatch(["users", ":id"], ["accounts", "42"]) == Some(0);
  }

  /** "/users" matches "/users/42/extra": only the pattern-length prefix counts. */
  lemma PrefixMatch(pathname: string, pattern: string)
    requires pathname == JoinPath(["users", "42", "extra"]) && pattern == JoinPath(["users"])
    ensures Matches(pathname, pattern) == Match(map[])
  {
    GetPartsJoinPath(["users", "42", "extra"]);
    GetPartsJoinPath(["users"]);
  }

  /** A later parameter of the same name overwrites the earlier one. */
  lemma DuplicateNameLastWins(pathname: string, pattern: string)
    requires pathname == JoinPath(["1", "2"]) && pattern == JoinPath([":x", ":x"])
    ensures Matches(pathname, pattern) == Match(map["x" := "2"])
  {
    GetPartsJoinPath(["1", "2"]);
    GetPartsJoinPath([":x", ":x"]);
    assert Classify(":x") == Dynamic("x");
    assert Bind([":x", ":x"], ["1", "2"], map[]) == Bind([":x"], ["2"], map["x" := "1"]);
    assert map["x" := "1"]["x" := "2"] == map["x" := "2"];
  }

  /** "/a/:b/c" ranks before "/x/:y": more parts first, whatever they are. */
  lemma DeeperFirst(path1: string, path2: string)
    requires path1 == JoinPath(["a", ":b", "c"]) && path2 == JoinPath(["x", ":y"])
    ensures ComparePaths(path1, path2) == -1
  {
    GetPartsJoinPath(["a", ":b", "c"]);
    GetPartsJoinPath(["x", ":y"]);
  }

  /** With equal depth the static "/users/active" ranks before "/users/:id". */
  lemma StaticBeforeDynamic(path1: string, path2: string)
    requires path1 == JoinPath(["users", ":id"]) && path2 == JoinPath(["users", "active"])
    ensures ComparePaths(path1, path2) == 1
  {
    GetPartsJoinPath(["users", ":id"]);
    GetPartsJoinPath(["users", "active"]);
    assert IsDynamic(":id") && !IsDynamic("active") && !IsDynamic("users");
  }

  /** The paths of `MatchUsersId`, as literal text. */
  lemma MatchUsersIdText()
    ensures JoinPath(["users", "42"]) == "/users/42" && JoinPath(["users", ":id"]) == "/users/:id"
  {
  }

  /** The paths of `NoMatchAccounts`, as literal text. */
  lemma NoMatchAccountsText()
    ensures JoinPath(["accounts", "42"]) == "/accounts/42" && JoinPath(["users", ":id"]) == "/users/:id"
  {
  }

  /** The paths of `PrefixMatch`, as literal text. */
  lemma PrefixMatchText()
    ensures JoinPath(["users", "42", "extra"]) == "/users/42/extra" && JoinPath(["users"]) == "/users"
  {
  }

  /** The paths of `DuplicateNameLastWins`, as literal text. */
  lemma DuplicateNameLastWinsText()
    ensures JoinPath(["1", "2"]) == "/1/2" && JoinPath([":x", ":x"]) == "/:x/:x"
  {
  }

  /** The paths of `DeeperFirst`, as literal text. */
  lemma DeeperFirstText()
    ensures JoinPath(["a", ":b", "c"]) == "/a/:b/c" && JoinPath(["x", ":y"]) == "/x/:y"
  {
  }

  /** The paths of `StaticBeforeDynamic`, as literal text. */
  lemma StaticBeforeDynamicText()
    ensures JoinPath(["users", ":id"]) == "/users/:id" && JoinPath(["users", "active"]) == "/users/active"
  {
  }
}
