/** `DB::applyDynamics` and `DB::__callStatic`: the placeholders the bundled
    dump is written with, and their replacement by the values of the running
    site. */
module Rewrite {
  import opened Text

  /** The runtime values the source reads from `$wpdb` and `Main::$configs`. */
  datatype Config = Config(
    wpPrefix: string,       // $wpdb->prefix
    dbPrefix: string,       // Main::$configs->db_prefix
    charsetCollate: string, // $wpdb->get_charset_collate()
    charset: string,        // $wpdb->charset
    collate: string         // $wpdb->collate
  )

  const PrefixToken := "wp_slds_"
  const TableClauseToken := "ENGINE=InnoDB DEFAULT CHARSET=utf8mb4 COLLATE=utf8mb4_unicode_520_ci"
  const CharsetToken := "CHARACTER SET utf8mb4"
  const CollateToken := "COLLATE utf8mb4_unicode_520_ci"

  /** What the table-prefix placeholder becomes. */
  function LivePrefix(cfg: Config): string {
    cfg.wpPrefix + cfg.dbPrefix
  }

  /** `DB::__callStatic($name)`: the physical name of the plugin table `name`. */
  function TableName(cfg: Config, name: string): (r: string)
    ensures |r| == |cfg.wpPrefix| + |cfg.dbPrefix| + |name|
    ensures r[..|LivePrefix(cfg)|] == LivePrefix(cfg)
    ensures r[|LivePrefix(cfg)|..] == name
  {
    LivePrefix(cfg) + name
  }

  /** The four `str_replace` calls of `applyDynamics`, in source order. Each
      step splits the query at its placeholder and joins the pieces with the
      live value. */
  function Rewrite(cfg: Config, q: string): (r: string)
    ensures
      var q1 := Join(Split(q, PrefixToken), LivePrefix(cfg));
      var q2 := Join(Split(q1, TableClauseToken), cfg.charsetCollate);
      var q3 := Join(Split(q2, CharsetToken), "CHARACTER SET " + cfg.charset);
      r == Join(Split(q3, CollateToken), "COLLATE " + cfg.collate)
  {
    var q1 := ReplaceAll(q, PrefixToken, LivePrefix(cfg));
    var q2 := ReplaceAll(q1, TableClauseToken, cfg.charsetCollate);
    var q3 := ReplaceAll(q2, CharsetToken, "CHARACTER SET " + cfg.charset);
    ReplaceIsJoinOfSplit(q, PrefixToken, LivePrefix(cfg));
    ReplaceIsJoinOfSplit(q1, TableClauseToken, cfg.charsetCollate);
    ReplaceIsJoinOfSplit(q2, CharsetToken, "CHARACTER SET " + cfg.charset);
    ReplaceIsJoinOfSplit(q3, CollateToken, "COLLATE " + cfg.collate);
    ReplaceAll(q3, CollateToken, "COLLATE " + cfg.collate)
  }

  /** `DB::applyDynamics`: one rewritten query per extracted query, in order. */
  function ApplyDynamics(cfg: Config, qs: seq<string>): (r: seq<string>)
    ensures |r| == |qs|
    ensures forall k :: 0 <= k < |qs| ==> r[k] == Rewrite(cfg, qs[k])
  {
    seq(|qs|, k requires 0 <= k < |qs| => Rewrite(cfg, qs[k]))
  }

  /** A query without any placeholder comes out of the rewrite unchanged. */
  lemma RewriteUntouched(cfg: Config, q: string)
    requires !Contains(q, PrefixToken)
    requires !Contains(q, TableClauseToken)
    requires !Contains(q, CharsetToken)
    requires !Contains(q, CollateToken)
    ensures Rewrite(cfg, q) == q
  {
    ReplaceAbsent(q, PrefixToken, LivePrefix(cfg));
    ReplaceAbsent(q, TableClauseToken, cfg.charsetCollate);
    ReplaceAbsent(q, CharsetToken, "CHARACTER SET " + cfg.charset);
    ReplaceAbsent(q, CollateToken, "COLLATE " + cfg.collate);
  }

  /** The prefix step turns a placeholder table reference `wp_slds_<name>`
      into the same physical name `__callStatic` builds for `name`. */
  lemma PrefixRewriteIsTableName(cfg: Config, name: string)
    requires !Contains(name, PrefixToken)
    ensures ReplaceAll(PrefixToken + name, PrefixToken, LivePrefix(cfg)) == TableName(cfg, name)
  {
    ReplaceLeading(PrefixToken, LivePrefix(cfg), name);
    ReplaceAbsent(name, PrefixToken, LivePrefix(cfg));
  }
}
