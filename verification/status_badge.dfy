/**
 * `StatusBadge`: a status string shown as a badge whose variant, icon and
 * class are chosen by the lower-cased status.
 */
module StatusBadge {
  import opened Wrappers

  /** The badge variants the component uses. */
  datatype Variant = Success | Destructive | Default | Secondary | Outline

  /** The icons the component uses. */
  datatype Icon = CheckCircle | XCircle | Clock | AlertCircle

  datatype Config = Config(variant: Variant, icon: Option<Icon>, className: string)

  /** `toLowerCase` on one character, for the ASCII letters the keywords are made of. */
  function LowerChar(c: char): char {
    if 'A' <= c <= 'Z' then (c as int + 32) as char else c
  }

  function UpperChar(c: char): char {
    if 'a' <= c <= 'z' then (c as int - 32) as char else c
  }

  /** `s.toLowerCase()`. */
  function ToLower(s: string): (r: string)
    ensures |r| == |s| && forall i :: 0 <= i < |s| ==> r[i] == LowerChar(s[i])
  {
    seq(|s|, i requires 0 <= i < |s| => LowerChar(s[i]))
  }

  /** `s.toUpperCase()`. */
  function ToUpper(s: string): (r: string)
    ensures |r| == |s| && forall i :: 0 <= i < |s| ==> r[i] == UpperChar(s[i])
  {
    seq(|s|, i requires 0 <= i < |s| => UpperChar(s[i]))
  }

  /** The statuses the switch recognises. */
  const Keywords: set<string> := {"success", "failed", "error", "running", "warning", "stopped"}

  const DefaultConfig: Config := Config(Secondary, None, "")

  /**
   * `getStatusConfig`: an icon exactly for the recognised statuses, the
   * destructive variant exactly for failed and error, and the plain
   * secondary badge with no icon and no class for anything else.
   */
  function GetStatusConfig(status: string): (c: Config)
    ensures c.icon.Some? <==> ToLower(status) in Keywords
    ensures c.variant == Destructive <==> ToLower(status) in {"failed", "error"}
    ensures ToLower(status) !in Keywords ==> c == DefaultConfig
  {
    match ToLower(status)
    case "success" => Config(Success, Some(CheckCircle), "status-success")
    case "failed" => Config(Destructive, Some(XCircle), "status-danger")
    case "error" => Config(Destructive, Some(XCircle), "status-danger")
    case "running" => Config(Default, Some(Clock), "status-running")
    case "warning" => Config(Secondary, Some(AlertCircle), "status-warning")
    case "stopped" => Config(Outline, Some(XCircle), "bg-muted text-muted-foreground")
    case _ => DefaultConfig
  }

  /** Lower-casing forgets what upper-casing did. */
  lemma LowerOfUpper(s: string)
    ensures ToLower(ToUpper(s)) == ToLower(s)
  {
    assert forall i :: 0 <= i < |s| ==> LowerChar(UpperChar(s[i])) == LowerChar(s[i]);
  }

  /** Case does not matter: "RUNNING" gets the config of "running". */
  lemma ConfigIgnoresCase(status: string)
    ensures GetStatusConfig(ToUpper(status)) == GetStatusConfig(status)
  {
    LowerOfUpper(status);
  }

  /** 'failed' and 'error', in any case, share one configuration. */
  lemma FailedAndErrorAgree(a: string, b: string)
    requires ToLower(a) in {"failed", "error"} && ToLower(b) in {"failed", "error"}
    ensures GetStatusConfig(a) == GetStatusConfig(b) == Config(Destructive, Some(XCircle), "status-danger")
  {
  }

  /** The classes every badge carries before its configured one. */
  const BaseClass: string := "flex items-center gap-1 px-2 py-1 text-xs font-medium"

  /** What the component renders; `classes` are the arguments given to `cn`. */
  datatype Badge = Badge(variant: Variant, classes: seq<string>, icon: Option<Icon>, text: string)

  /** The badge for a status: configured by the lower-cased status, labelled with the status as given. */
  function Render(status: string, className: string): (b: Badge)
    ensures b.text == status
    ensures b.variant == GetStatusConfig(status).variant && b.icon == GetStatusConfig(status).icon
    ensures b.classes == [BaseClass, GetStatusConfig(status).className, className]
  {
    var config := GetStatusConfig(status);
    Badge(config.variant, [BaseClass, config.className, className], config.icon, status)
  }
}
