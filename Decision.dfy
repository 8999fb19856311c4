/**
 * The verdict of `checkPermission` once the module name is known
 * (PermissionManager.java lines 62-73): a two-level lookup in the
 * permission map, module name first, then target package.
 */
module Decision {

  /** The status string handed to the notification (line 71). */
  datatype Status = Unknown | Allowed | Denied
  {
    function Text(): (t: string)
      ensures t == "unknown" <==> this == Unknown
      ensures t == "allowed" <==> this == Allowed
      ensures t == "denied" <==> this == Denied
    {
      match this
      case Unknown => "unknown"
      case Allowed => "allowed"
      case Denied => "denied"
    }
  }

  /** What `checkPermission` returns (`granted`) and reports (`status`). */
  datatype Verdict = Verdict(granted: bool, status: Status)

  /** The triple `sendNotification` is given (line 73). */
  datatype Notice = Notice(moduleName: string, packageName: string, status: string)

  /**
   * Lines 62-71 for a non-null module name: the package is granted exactly
   * when both keys are present and the stored flag is true; the status is
   * "unknown" when either key is missing, and otherwise follows the flag.
   */
  function Decide(permissions: map<string, map<string, bool>>, moduleName: string, packageName: string): (v: Verdict)
    ensures v.granted <==>
      moduleName in permissions && packageName in permissions[moduleName] && permissions[moduleName][packageName]
    ensures v.status == Unknown <==> moduleName !in permissions || packageName !in permissions[moduleName]
    ensures v.status == Allowed <==> v.granted
    ensures v.granted ==> v.status != Unknown
  {
    var known := moduleName in permissions && packageName in permissions[moduleName];
    var granted := known && permissions[moduleName][packageName];
    Verdict(granted, if !known then Unknown else if granted then Allowed else Denied)
  }
}
