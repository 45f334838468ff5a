/** Operating-system detection from the browser's self-description, and
    the keyboard shortcut the page suggests for closing the tab. */
module Browser {
  import opened Wrappers
  import opened Text

  /** What the page can see of its browser: nothing during server
      rendering, otherwise `navigator.userAgent`, the optional
      `navigator.userAgentData.platform` and `.mobile`, and the window width. */
  datatype Window =
    | NoWindow
    | Window(userAgent: string, platform: Option<string>, mobileHint: Option<bool>, innerWidth: int)

  datatype OSInfo = OSInfo(isMac: bool, isWindows: bool, isLinux: bool, isMobile: bool)

  /** The words of the mobile test, matched in the lower-cased user agent. */
  const MobileTokens: seq<string> :=
    ["android", "webos", "iphone", "ipad", "ipod", "blackberry", "iemobile", "opera mini"]

  /** The width at or below which the page treats the screen as mobile. */
  const MobileMaxWidth: int := 768

  /** The lower-cased platform name, or the lower-cased user agent when the
      platform is missing or empty. */
  function PlatformInfo(w: Window): (p: string)
    requires w.Window?
    ensures w.platform.None? ==> p == ToLower(w.userAgent)
    ensures w.platform.Some? && w.platform.value != "" ==> p == ToLower(w.platform.value)
    ensures w.platform.Some? && w.platform.value == "" ==> p == ToLower(w.userAgent)
  {
    var lowered := if w.platform.Some? then ToLower(w.platform.value) else "";
    if lowered != "" then lowered else ToLower(w.userAgent)
  }

  predicate HasMobileToken(agent: string) {
    exists i :: 0 <= i < |MobileTokens| && Contains(agent, MobileTokens[i])
  }

  /** `getOSInfo`. */
  function GetOSInfo(w: Window): (info: OSInfo)
    ensures w.NoWindow? ==> info == OSInfo(false, false, false, false)
    ensures w.Window? ==>
      var agent := ToLower(w.userAgent);
      && (info.isMac <==> Contains(PlatformInfo(w), "mac") || Contains(agent, "mac"))
      && (info.isWindows <==> Contains(PlatformInfo(w), "win") || Contains(agent, "windows"))
      && (info.isLinux <==> Contains(PlatformInfo(w), "linux") || Contains(agent, "linux"))
      && (info.isMobile <==>
            HasMobileToken(agent) || w.mobileHint == Some(true) || w.innerWidth <= MobileMaxWidth)
  {
    match w
    case NoWindow => OSInfo(false, false, false, false)
    case Window(userAgent, _, mobileHint, innerWidth) =>
      var agent := ToLower(userAgent);
      var platform := PlatformInfo(w);
      OSInfo(
        Contains(platform, "mac") || Contains(agent, "mac"),
        Contains(platform, "win") || Contains(agent, "windows"),
        Contains(platform, "linux") || Contains(agent, "linux"),
        HasMobileToken(agent) || mobileHint == Some(true) || innerWidth <= MobileMaxWidth)
  }

  /** `getCloseTabCommand`: Cmd+W on a Mac, Ctrl+W everywhere else,
      including during server rendering. */
  function GetCloseTabCommand(w: Window): (cmd: string)
    ensures cmd == "Cmd+W" || cmd == "Ctrl+W"
    ensures cmd == "Cmd+W" <==> GetOSInfo(w).isMac
  {
    if w.NoWindow? then "Ctrl+W"
    else
      var info := GetOSInfo(w);
      if info.isMac then "Cmd+W"
      else if info.isWindows || info.isLinux then "Ctrl+W"
      else "Ctrl+W"
  }

  /** The debugging summary: a marker during server rendering, otherwise
      the detected flags, the raw user agent, the raw platform name (or
      "Not available" when it is missing or empty) and the shortcut. */
  datatype Details =
    | ServerSide
    | Details(osInfo: OSInfo, userAgent: string, platformInfo: string, closeCommand: string)

  /** `getDetailedOSInfo`. */
  function GetDetailedOSInfo(w: Window): (d: Details)
    ensures d.ServerSide? <==> w.NoWindow?
    ensures d.Details? ==>
      d.osInfo == GetOSInfo(w) && d.userAgent == w.userAgent
      && (w.platform.None? || w.platform.value == "" ==> d.platformInfo == "Not available")
      && (w.platform.Some? && w.platform.value != "" ==> d.platformInfo == w.platform.value)
      && d.closeCommand == GetCloseTabCommand(w)
  {
    match w
    case NoWindow => ServerSide
    case Window(userAgent, platform, _, _) =>
      var raw := if platform.Some? && platform.value != "" then platform.value else "Not available";
      Details(GetOSInfo(w), userAgent, raw, GetCloseTabCommand(w))
  }

  /** A word written anywhere in the user agent, in any ASCII case, is found
      in its lower-cased form. */
  lemma {:induction false} AgentMentions(pre: string, word: string, post: string)
    ensures Contains(ToLower(pre + word + post), ToLower(word))
  {
    var s := ToLower(pre + word + post);
    ToLowerConcat(pre + word, post);
    ToLowerConcat(pre, word);
    assert s == ToLower(pre) + ToLower(word) + ToLower(post);
    assert s[|pre|..|pre| + |word|] == ToLower(word);
    ContainsAt(s, ToLower(word), |pre|);
  }

  /** A user agent that says "Mac" gets Cmd+W, whatever else it says: the
      Mac test comes first, so an agent that also looks like Windows still
      gets the Mac shortcut. */
  lemma MacAgentGetsCmdW(pre: string, post: string, platform: Option<string>,
                         hint: Option<bool>, width: int)
    ensures GetOSInfo(Window(pre + "Mac" + post, platform, hint, width)).isMac
    ensures GetCloseTabCommand(Window(pre + "Mac" + post, platform, hint, width)) == "Cmd+W"
  {
    AgentMentions(pre, "Mac", post);
    assert ToLower("Mac") == "mac";
  }

  /** Without a Mac mark in either string, the shortcut is Ctrl+W. */
  lemma NoMacGetsCtrlW(w: Window)
    requires w.Window? ==> !Contains(PlatformInfo(w), "mac") && !Contains(ToLower(w.userAgent), "mac")
    ensures GetCloseTabCommand(w) == "Ctrl+W"
  {
  }

  /** A user agent that names "Android" is mobile at any width. */
  lemma AndroidAgentIsMobile(pre: string, post: string, platform: Option<string>,
                             hint: Option<bool>, width: int)
    ensures GetOSInfo(Window(pre + "Android" + post, platform, hint, width)).isMobile
  {
    AgentMentions(pre, "Android", post);
    assert ToLower("Android") == MobileTokens[0];
  }

  /** A user agent that names "Windows" is Windows even when the platform
      name says otherwise. */
  lemma WindowsAgentIsWindows(pre: string, post: string, platform: Option<string>,
                              hint: Option<bool>, width: int)
    ensures GetOSInfo(Window(pre + "Windows" + post, platform, hint, width)).isWindows
  {
    AgentMentions(pre, "Windows", post);
    assert ToLower("Windows") == "windows";
  }
}
