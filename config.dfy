/** The application settings and the two properties derived from the database URL. */
module Config {
  import opened Text

  const POSTGRES_SCHEME := "postgresql://"
  const ASYNCPG_SCHEME := "postgresql+asyncpg://"
  const QUERY_SSLMODE := "?sslmode="
  const PARAM_SSLMODE := "&sslmode="

  /** `Settings`: the values read from the environment; the secret is the HS256 signing key. */
  datatype Settings = Settings(
    databaseUrl: string,
    betterAuthSecret: string,
    frontendUrl: string,
    debug: bool,
    appName: string,
    appVersion: string)
  {
    /**
     * `async_database_url`: the URL with the asyncpg driver scheme and
     * without its `sslmode` parameter. A `postgresql://` URL comes out with
     * the asyncpg scheme whatever its parameters; a `?sslmode=` cut leaves a
     * prefix of the rewritten URL without the marker; with neither marker
     * the rewritten URL is the result.
     */
    function AsyncDatabaseUrl(): (r: string)
      ensures StartsWith(databaseUrl, POSTGRES_SCHEME) ==> StartsWith(r, ASYNCPG_SCHEME)
      ensures Contains(RewriteScheme(databaseUrl), QUERY_SSLMODE) ==>
        StartsWith(RewriteScheme(databaseUrl), r) && !Contains(r, QUERY_SSLMODE)
      ensures !Contains(RewriteScheme(databaseUrl), QUERY_SSLMODE) && !Contains(RewriteScheme(databaseUrl), PARAM_SSLMODE) ==>
        r == RewriteScheme(databaseUrl)
    {
      if StartsWith(databaseUrl, POSTGRES_SCHEME) then
        DropSslmodeKeepsAsyncScheme(databaseUrl[|POSTGRES_SCHEME|..]);
        DropSslmode(RewriteScheme(databaseUrl))
      else DropSslmode(RewriteScheme(databaseUrl))
    }

    /** `requires_ssl`: true exactly when `sslmode=require` or `neon.tech` occurs at some position of the raw URL. */
    function RequiresSsl(): (b: bool)
      ensures b <==>
        (exists i :: OccursAt(databaseUrl, "sslmode=require", i)) || (exists i :: OccursAt(databaseUrl, "neon.tech", i))
    {
      ContainsIffOccurs(databaseUrl, "sslmode=require");
      ContainsIffOccurs(databaseUrl, "neon.tech");
      Contains(databaseUrl, "sslmode=require") || Contains(databaseUrl, "neon.tech")
    }
  }

  /** The settings with every optional field at its default; the two required ones come from the environment. */
  function WithDefaults(databaseUrl: string, betterAuthSecret: string): (s: Settings)
    ensures s.databaseUrl == databaseUrl && s.betterAuthSecret == betterAuthSecret
    ensures s.frontendUrl == "http://localhost:3000" && !s.debug
    ensures s.appName == "Todo API" && s.appVersion == "1.0.0"
  {
    Settings(databaseUrl, betterAuthSecret, "http://localhost:3000", false, "Todo API", "1.0.0")
  }

  /** The first step of `async_database_url`: a leading `postgresql://` becomes `postgresql+asyncpg://`; any other URL is kept. */
  function RewriteScheme(url: string): (r: string)
    ensures StartsWith(url, POSTGRES_SCHEME) ==> r == ASYNCPG_SCHEME + url[|POSTGRES_SCHEME|..]
    ensures !StartsWith(url, POSTGRES_SCHEME) ==> r == url
  {
    if StartsWith(url, POSTGRES_SCHEME) then
      ReplaceOnceAtStart(url, POSTGRES_SCHEME, ASYNCPG_SCHEME);
      Replace(url, POSTGRES_SCHEME, ASYNCPG_SCHEME, 1)
    else url
  }

  /**
   * The second step: a URL with `?sslmode=` is cut before it, so every
   * parameter after it goes too; otherwise a URL with `&sslmode=` loses each
   * `&sslmode=require`, `&sslmode=prefer` and `&sslmode=disable`.
   */
  function DropSslmode(url: string): (r: string)
    ensures Contains(url, QUERY_SSLMODE) ==>
      && StartsWith(url, r)
      && StartsWith(url[|r|..], QUERY_SSLMODE)
      && !Contains(r, QUERY_SSLMODE)
    ensures !Contains(url, QUERY_SSLMODE) && !Contains(url, PARAM_SSLMODE) ==> r == url
  {
    SplitHeadCutsAtFirst(url, QUERY_SSLMODE);
    if Contains(url, QUERY_SSLMODE) then SplitHead(url, QUERY_SSLMODE)
    else if Contains(url, PARAM_SSLMODE) then
      Replace(Replace(Replace(url, "&sslmode=require", "", -1), "&sslmode=prefer", "", -1), "&sslmode=disable", "", -1)
    else url
  }

  /** In the `&sslmode=` case, a URL carrying none of the three removable values is kept as it is, `&sslmode=verify-full` say. */
  lemma OtherSslmodeKept(url: string)
    requires !Contains(url, QUERY_SSLMODE) && Contains(url, PARAM_SSLMODE)
    requires !Contains(url, "&sslmode=require") && !Contains(url, "&sslmode=prefer") && !Contains(url, "&sslmode=disable")
    ensures DropSslmode(url) == url
  {
    ReplaceAbsent(url, "&sslmode=require", "", -1);
    ReplaceAbsent(url, "&sslmode=prefer", "", -1);
    ReplaceAbsent(url, "&sslmode=disable", "", -1);
  }

  /**
   * Removing every `pat` from `base + pat` removes just that ending, when
   * `pat` does not occur in `base` and its first character does not recur
   * in it, so that no occurrence can straddle the two.
   */
  lemma {:induction false} RemoveTrailing(base: string, pat: string)
    requires pat != []
    requires forall k :: 1 <= k < |pat| ==> pat[k] != pat[0]
    requires !Contains(base, pat)
    ensures Replace(base + pat, pat, "", -1) == base
    decreases |base|
  {
    if base == [] {
      assert base + pat == pat;
      assert pat[|pat|..] == [];
    } else {
      var u := base + pat;
      assert !StartsWith(u, pat) by {
        if |pat| <= |base| {
          assert u[..|pat|] == base[..|pat|];
        } else {
          assert u[..|pat|][|base|] == pat[0];
          assert pat[|base|] != pat[0];
        }
      }
      assert u[1..] == base[1..] + pat;
      RemoveTrailing(base[1..], pat);
      assert [base[0]] + base[1..] == base;
    }
  }

  /** The three values `async_database_url` removes after `&sslmode=`. */
  predicate Removable(param: string) {
    param == "&sslmode=require" || param == "&sslmode=prefer" || param == "&sslmode=disable"
  }

  /** A removable parameter has `&` only at its start, and no `?`. */
  lemma RemovableCharacters(param: string)
    requires Removable(param)
    ensures |param| >= 15 && param[0] == '&' && param[..9] == PARAM_SSLMODE
    ensures forall k :: 1 <= k < |param| ==> param[k] != '&'
    ensures forall k :: 0 <= k < |param| ==> param[k] != '?'
  {
  }

  /** Neither the `?sslmode=` marker nor another removable parameter occurs inside a removable parameter. */
  lemma RemovableParameters(param: string, q: string)
    requires Removable(param) && Removable(q) && param != q
    ensures !Contains(param, QUERY_SSLMODE) && !Contains(param, q)
  {
    RemovableCharacters(param);
    RemovableCharacters(q);
    AbsentFirstCharNotContained(param, QUERY_SSLMODE);
    ContainsIffOccurs(param, q);
    assert param[9] != q[9];
    forall i ensures !OccursAt(param, q, i) {
      if 0 <= i && i + |q| <= |param| {
        assert param[i..i + |q|][0] == param[i];
        assert param[i..i + |q|][9] == param[i + 9];
      }
    }
  }

  /** Appending a removable parameter creates no `?sslmode=` and no other removable parameter. */
  lemma NothingElseAppended(base: string, param: string, q: string)
    requires Removable(param) && Removable(q) && param != q
    requires !Contains(base, QUERY_SSLMODE) && !Contains(base, q)
    ensures !Contains(base + param, QUERY_SSLMODE) && !Contains(base + param, q)
  {
    RemovableParameters(param, q);
    RemovableCharacters(q);
    RemovableCharacters(param);
    assert forall k :: 1 <= k < |QUERY_SSLMODE| ==> QUERY_SSLMODE[k] != '&';
    ContainsWithinPrefix(base, param, QUERY_SSLMODE);
    ContainsWithinPrefix(base, param, q);
  }

  /** Appending a removable parameter makes `&sslmode=` occur. */
  lemma ParamMarkerAppended(base: string, param: string)
    requires Removable(param)
    ensures Contains(base + param, PARAM_SSLMODE)
  {
    RemovableCharacters(param);
    OccursInSuffix(base, param, PARAM_SSLMODE);
  }

  /**
   * A trailing `&sslmode=require`, `&sslmode=prefer` or `&sslmode=disable`
   * is removed and nothing else, whatever parameters come before it, as
   * long as they hold no `?sslmode=` and none of the three removable
   * values; another value such as `&sslmode=verify-full` before it stays.
   */
  lemma TrailingSslmodeDropped(base: string, param: string)
    requires Removable(param)
    requires !Contains(base, QUERY_SSLMODE)
    requires !Contains(base, "&sslmode=require") && !Contains(base, "&sslmode=prefer") && !Contains(base, "&sslmode=disable")
    ensures DropSslmode(base + param) == base
  {
    var require, prefer, disable := "&sslmode=require", "&sslmode=prefer", "&sslmode=disable";
    ParamMarkerAppended(base, param);
    assert forall k :: 1 <= k < |param| ==> param[k] != param[0];
    if param == require {
      NothingElseAppended(base, param, prefer);
      RemoveTrailing(base, require);
      ReplaceAbsent(base, prefer, "", -1);
      ReplaceAbsent(base, disable, "", -1);
    } else if param == prefer {
      NothingElseAppended(base, param, require);
      ReplaceAbsent(base + param, require, "", -1);
      RemoveTrailing(base, prefer);
      ReplaceAbsent(base, disable, "", -1);
    } else {
      NothingElseAppended(base, param, require);
      NothingElseAppended(base, param, prefer);
      ReplaceAbsent(base + param, require, "", -1);
      ReplaceAbsent(base + param, prefer, "", -1);
      RemoveTrailing(base, disable);
    }
  }

  /** The `sslmode` step never touches the asyncpg scheme at the front: neither marker can start inside it. */
  lemma DropSslmodeKeepsAsyncScheme(rest: string)
    ensures StartsWith(DropSslmode(ASYNCPG_SCHEME + rest), ASYNCPG_SCHEME)
  {
    var p := ASYNCPG_SCHEME;
    assert forall k :: 0 <= k < |p| ==> p[k] != '?' && p[k] != '&';
    var u := p + rest;
    if Contains(u, QUERY_SSLMODE) {
      SplitHeadKeepsPrefix(p, rest, QUERY_SSLMODE);
    } else if Contains(u, PARAM_SSLMODE) {
      ReplaceKeepsPrefix(p, rest, "&sslmode=require", "", -1);
      var r1 := Replace(rest, "&sslmode=require", "", -1);
      ReplaceKeepsPrefix(p, r1, "&sslmode=prefer", "", -1);
      var r2 := Replace(r1, "&sslmode=prefer", "", -1);
      ReplaceKeepsPrefix(p, r2, "&sslmode=disable", "", -1);
    }
  }
}
