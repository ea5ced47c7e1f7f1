/**
  The admission decision at the top of the message handler: group
  messages are filtered by the configured group whitelist, private
  messages by the `enable_in_private` switch.
 */
module Gating {
  import opened Optional
  import opened PyValue

  /**
    The plugin configuration. `groupWhitelist` is `None` when the key is
    absent or set to null (both read as an empty whitelist); `enableInPrivate`
    is `None` only when the key is absent, since a present null is falsy.
   */
  datatype Config = Config(groupWhitelist: Option<seq<Value>>, enableInPrivate: Option<Value>)

  /** `config.get("group_whitelist", [])`, with a null entry read as the empty list. */
  function Whitelist(cfg: Config): seq<Value> {
    cfg.groupWhitelist.GetOr([])
  }

  /** `not config.get("enable_in_private", True)` is false: absent means enabled. */
  predicate PrivateEnabled(cfg: Config) {
    Truthy(cfg.enableInPrivate.GetOr(Bool(true)))
  }

  /** `key in [str(g) for g in ws]`. */
  function InStrList(key: string, ws: seq<Value>): (r: bool)
    ensures r <==> exists k :: 0 <= k < |ws| && ToStr(ws[k]) == key
    decreases |ws|
  {
    if |ws| == 0 then false
    else ToStr(ws[0]) == key || InStrList(key, ws[1..])
  }

  /** Whether the handler goes on past the whitelist / private-chat checks. */
  function Admits(cfg: Config, groupId: Value): (r: bool)
    ensures Truthy(groupId) ==>
      (r <==> |Whitelist(cfg)| == 0
              || exists k :: 0 <= k < |Whitelist(cfg)| && ToStr(Whitelist(cfg)[k]) == ToStr(groupId))
    ensures !Truthy(groupId) ==> (r <==> PrivateEnabled(cfg))
  {
    if Truthy(groupId) then
      var ws := Whitelist(cfg);
      !(|ws| > 0 && !InStrList(ToStr(groupId), ws))
    else
      PrivateEnabled(cfg)
  }

  /** With no whitelist configured, every group message is admitted. */
  lemma EmptyWhitelistAdmitsGroups(cfg: Config, groupId: Value)
    requires Truthy(groupId)
    requires Whitelist(cfg) == []
    ensures Admits(cfg, groupId)
  {
  }

  /** A group listed in the whitelist is admitted whatever else the whitelist holds. */
  lemma ListedGroupAdmitted(cfg: Config, groupId: Value, k: nat)
    requires Truthy(groupId)
    requires k < |Whitelist(cfg)| && ToStr(Whitelist(cfg)[k]) == ToStr(groupId)
    ensures Admits(cfg, groupId)
  {
  }

  /**
    The whitelist entries are compared as strings: a numeric group id
    matches an entry written as its decimal spelling.
   */
  lemma NumericGroupMatchesSpelledEntry(i: int, ws: seq<Value>, k: nat)
    requires i != 0
    requires k < |ws| && ws[k] == Str(Decimal.IntToDecimal(i))
    ensures Admits(Config(Some(ws), None), Int(i))
  {
    assert ToStr(ws[k]) == ToStr(Int(i));
  }

  /** And the other way round: a group id given as a string matches a numeric entry with that spelling. */
  lemma SpelledGroupMatchesNumericEntry(i: int, ws: seq<Value>, k: nat)
    requires k < |ws| && ws[k] == Int(i)
    ensures Admits(Config(Some(ws), None), Str(Decimal.IntToDecimal(i)))
  {
    assert ToStr(ws[k]) == ToStr(Str(Decimal.IntToDecimal(i)));
  }

  /** Private messages never consult the whitelist: only `enable_in_private` matters. */
  lemma PrivateIgnoresWhitelist(cfg: Config, cfg': Config, groupId: Value)
    requires !Truthy(groupId)
    requires cfg.enableInPrivate == cfg'.enableInPrivate
    ensures Admits(cfg, groupId) == Admits(cfg', groupId)
  {
  }

  /** Private messages are admitted by default, when `enable_in_private` is not configured. */
  lemma PrivateDefaultsToEnabled(cfg: Config, groupId: Value)
    requires !Truthy(groupId)
    requires cfg.enableInPrivate == None
    ensures Admits(cfg, groupId)
  {
  }

  /** Group messages never consult `enable_in_private`: only the whitelist matters. */
  lemma GroupIgnoresPrivateSwitch(cfg: Config, cfg': Config, groupId: Value)
    requires Truthy(groupId)
    requires Whitelist(cfg) == Whitelist(cfg')
    ensures Admits(cfg, groupId) == Admits(cfg', groupId)
  {
  }
}
