/** How the two `require_auth` rules relate: on paths without a trailing `/`
    every path 0x02 exempts is exempt under 0x01 too; on paths ending in `/`
    it is the other way round; and each rule exempts a path the other does
    not. */
module PolicyCompare {
  import opened Values
  import opened Strings
  import Auth01
  import Auth02

  /** Without a trailing `/`, the 0x02 rule is the stricter one. */
  lemma NoSlashV2ExemptImpliesV1Exempt(p: string, e: seq<string>)
    requires !EndsWithChar(p, '/')
    requires !Auth02.RequireAuth(Some(p), Some(e))
    ensures !Auth01.RequireAuth(Some(p), Some(e))
  {
    Auth02.RequireAuthExempt(p, e);
    Auth01.RequireAuthExempt(p, e);
    if p + "/" in e {
      assert Auth01.EntryExempts(p, p + "/");
    } else {
      var x :| x in e && Auth02.WildcardExempts(p, x);
      assert Auth01.EntryExempts(p, x);
    }
  }

  /** With a trailing `/`, the 0x01 rule is the stricter one. */
  lemma SlashV1ExemptImpliesV2Exempt(p: string, e: seq<string>)
    requires EndsWithChar(p, '/')
    requires !Auth01.RequireAuth(Some(p), Some(e))
    ensures !Auth02.RequireAuth(Some(p), Some(e))
  {
    Auth01.RequireAuthExempt(p, e);
    Auth02.RequireAuthExempt(p, e);
  }

  /** `/a` with `["/a"]`: exempt under 0x01, guarded under 0x02. */
  lemma VerbatimPathDiffers()
    ensures !Auth01.RequireAuth(Some("/a"), Some(["/a"]))
    ensures Auth02.RequireAuth(Some("/a"), Some(["/a"]))
  {
    assert Auth01.EntryExempts("/a", "/a");
    Auth02.VerbatimPathNotExempt();
  }

  /** `/a/b/` with the one entry `"/a/" + "*"`: guarded under 0x01, exempt
      under 0x02. */
  lemma WildcardUnderSlashDiffers()
    ensures Auth01.RequireAuth(Some("/a/b/"), Some(["/a/*"]))
    ensures !Auth02.RequireAuth(Some("/a/b/"), Some(["/a/*"]))
  {
    Auth01.SlashPathIgnoresWildcard();
    assert Auth02.WildcardExempts("/a/b/", "/a/*");
  }
}
