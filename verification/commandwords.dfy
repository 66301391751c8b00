/**
 The demo program's command loop (main.c:51-76): each whitespace-free token
 read from standard input selects service actions by substring search.

 The scan chain and the device chain are two separate `if` statements (the
 second `if` on main.c:58 is not preceded by `else`), so one token can yield a
 scan action followed by a device action. Within each chain the first word
 found wins. "pair" is a substring of "cancle_pair", so the empty cancel
 branch can never be taken.
 */
module CommandWords {

  /** DEFAULT_DEVICE_PATH (main.c:9). */
  const DefaultDevicePath: string := "/org/bluez/hci0/dev_0C_12_62_24_15_E1"

  /** The media player the Play and Pause words address. */
  const MediaDevice: string := "dev_50_8F_4C_E5_04_D9"

  /** The A2DP source and AVRCP controller profile UUIDs "audio-sink" connects, in order. */
  const A2dpSourceUuid: string := "0000110a-0000-1000-8000-00805f9b34fb"
  const AvrcpControllerUuid: string := "0000110c-0000-1000-8000-00805f9b34fb"

  datatype Action =
    | StartDiscovery
    | StopDiscovery
    | StartPair(path: string)
    | ConnectDevice(path: string)
    | ConnectProfile(path: string, profile: string)
    | MediaControl(device: string, command: string)

  /** `w` occurs in `s` starting at index `i`. */
  predicate OccursAt(s: string, w: string, i: int) {
    0 <= i && i + |w| <= |s| && s[i..i + |w|] == w
  }

  /** `strstr(s, w) != NULL`: case-sensitive substring search, the empty word occurring everywhere. */
  function Contains(s: string, w: string): bool {
    if |w| <= |s| && s[..|w|] == w then true
    else if |s| == 0 then false
    else Contains(s[1..], w)
  }

  /** The search succeeds exactly when the word occurs at some index. */
  lemma {:induction false} ContainsIffOccurs(s: string, w: string)
    ensures Contains(s, w) <==> exists i :: OccursAt(s, w, i)
  {
    if |w| <= |s| && s[..|w|] == w {
      assert OccursAt(s, w, 0);
    } else if |s| > 0 {
      ContainsIffOccurs(s[1..], w);
      if Contains(s, w) {
        var i :| OccursAt(s[1..], w, i);
        assert s[1..][i..i + |w|] == s[i + 1..i + 1 + |w|];
        assert OccursAt(s, w, i + 1);
      }
      if exists i :: OccursAt(s, w, i) {
        var i :| OccursAt(s, w, i);
        if i == 0 {
          assert false;
        }
        assert s[1..][i - 1..i - 1 + |w|] == s[i..i + |w|];
        assert OccursAt(s[1..], w, i - 1);
      }
    }
  }

  /** A word found inside another word found in `s` is found in `s`. */
  lemma ContainsInside(s: string, outer: string, inner: string, k: nat)
    requires Contains(s, outer)
    requires k + |inner| <= |outer| && outer[k..k + |inner|] == inner
    ensures Contains(s, inner)
  {
    ContainsIffOccurs(s, outer);
    var i :| OccursAt(s, outer, i);
    forall j | 0 <= j < |inner|
      ensures s[i + k + j] == inner[j]
    {
      assert s[i..i + |outer|][k + j] == s[i + k + j];
      assert outer[k..k + |inner|][j] == outer[k + j];
    }
    assert s[i + k..i + k + |inner|] == inner;
    assert OccursAt(s, inner, i + k);
    ContainsIffOccurs(s, inner);
  }

  /** The first chain: start or stop a discovery. */
  function ScanActions(token: string): seq<Action> {
    if Contains(token, "start_scan") then [StartDiscovery]
    else if Contains(token, "stop_scan") then [StopDiscovery]
    else []
  }

  /** The second chain, whose cancel branch does nothing. */
  function DeviceActions(token: string): seq<Action> {
    if Contains(token, "pair") then [StartPair(DefaultDevicePath)]
    else if Contains(token, "cancle_pair") then []
    else if Contains(token, "connect_all") then [ConnectDevice(DefaultDevicePath)]
    else if Contains(token, "hfp-ag") then [ConnectProfile(DefaultDevicePath, "hfp-ag")]
    else if Contains(token, "audio-sink") then
      [ConnectProfile(DefaultDevicePath, A2dpSourceUuid), ConnectProfile(DefaultDevicePath, AvrcpControllerUuid)]
    else if Contains(token, "Play") then [MediaControl(MediaDevice, "Play")]
    else if Contains(token, "Pause") then [MediaControl(MediaDevice, "Pause")]
    else []
  }

  /** The actions one token triggers, in the order they are issued. */
  function Dispatch(token: string): (r: seq<Action>)
    ensures StartDiscovery in r <==> Contains(token, "start_scan")
    ensures StopDiscovery in r <==> !Contains(token, "start_scan") && Contains(token, "stop_scan")
    ensures StartPair(DefaultDevicePath) in r <==> Contains(token, "pair")
    ensures |r| <= 3
    ensures forall k :: 0 < k < |r| ==> r[k] != StartDiscovery && r[k] != StopDiscovery
  {
    ScanActions(token) + DeviceActions(token)
  }

  /** A device rule of the second chain: the word searched for and what it triggers. */
  datatype Rule = Rule(word: string, actions: seq<Action>)

  /** The device chain as a priority table, highest priority first. */
  const DeviceRules: seq<Rule> := [
    Rule("pair", [StartPair(DefaultDevicePath)]),
    Rule("cancle_pair", []),
    Rule("connect_all", [ConnectDevice(DefaultDevicePath)]),
    Rule("hfp-ag", [ConnectProfile(DefaultDevicePath, "hfp-ag")]),
    Rule("audio-sink",
      [ConnectProfile(DefaultDevicePath, A2dpSourceUuid), ConnectProfile(DefaultDevicePath, AvrcpControllerUuid)]),
    Rule("Play", [MediaControl(MediaDevice, "Play")]),
    Rule("Pause", [MediaControl(MediaDevice, "Pause")])
  ]

  /** The actions of the first rule whose word occurs in `token`; none if no word does. */
  function FirstRule(rules: seq<Rule>, token: string): seq<Action> {
    if |rules| == 0 then []
    else if Contains(token, rules[0].word) then rules[0].actions
    else FirstRule(rules[1..], token)
  }

  /** Rule `k` decides when its word is the first of the table found in `token`. */
  ghost predicate Decides(rules: seq<Rule>, token: string, k: int) {
    && 0 <= k < |rules|
    && Contains(token, rules[k].word)
    && forall j :: 0 <= j < k ==> !Contains(token, rules[j].word)
  }

  /** First-match lookup returns the deciding rule's actions, and nothing when no word occurs. */
  lemma {:induction false} FirstRuleIsFirstMatch(rules: seq<Rule>, token: string)
    ensures (forall k :: 0 <= k < |rules| ==> !Contains(token, rules[k].word)) ==> FirstRule(rules, token) == []
    ensures forall k :: Decides(rules, token, k) ==> FirstRule(rules, token) == rules[k].actions
  {
    if |rules| > 0 && !Contains(token, rules[0].word) {
      FirstRuleIsFirstMatch(rules[1..], token);
      forall k | Decides(rules, token, k)
        ensures FirstRule(rules, token) == rules[k].actions
      {
        assert k > 0;
        assert Decides(rules[1..], token, k - 1);
      }
    }
  }

  /** One step of the lookup: the head rule decides or the rest of the table is searched. */
  lemma FirstRuleStep(rules: seq<Rule>, token: string, word: string)
    requires |rules| > 0 && rules[0].word == word
    ensures FirstRule(rules, token) == if Contains(token, word) then rules[0].actions else FirstRule(rules[1..], token)
  {
  }

  /** The device chain is first-match over the priority table. */
  lemma DeviceChainIsFirstMatch(token: string)
    ensures DeviceActions(token) == FirstRule(DeviceRules, token)
  {
    var rs := DeviceRules;
    FirstRuleStep(rs, token, "pair");
    rs := rs[1..];
    FirstRuleStep(rs, token, "cancle_pair");
    rs := rs[1..];
    FirstRuleStep(rs, token, "connect_all");
    rs := rs[1..];
    FirstRuleStep(rs, token, "hfp-ag");
    rs := rs[1..];
    FirstRuleStep(rs, token, "audio-sink");
    rs := rs[1..];
    FirstRuleStep(rs, token, "Play");
    rs := rs[1..];
    FirstRuleStep(rs, token, "Pause");
    assert rs[1..] == [];
  }

  /** Every token containing "cancle_pair" also contains "pair", so it starts pairing. */
  lemma {:induction false} CancelPairStartsPairing(token: string)
    requires Contains(token, "cancle_pair")
    ensures DeviceActions(token) == [StartPair(DefaultDevicePath)]
  {
    assert "cancle_pair"[7..11] == "pair";
    ContainsInside(token, "cancle_pair", "pair", 7);
  }

  /** Every word the loop searches for. */
  const Words: seq<string> := ["start_scan", "stop_scan", "pair", "cancle_pair", "connect_all",
    "hfp-ag", "audio-sink", "Play", "Pause"]

  /** A token containing none of the nine words triggers nothing. */
  lemma NoWordNoAction(token: string)
    requires forall i :: 0 <= i < |Words| ==> !Contains(token, Words[i])
    ensures Dispatch(token) == []
  {
    assert !Contains(token, Words[0]) && !Contains(token, Words[1]);
    assert ScanActions(token) == [];
    assert !Contains(token, Words[2]) && !Contains(token, Words[3]) && !Contains(token, Words[4]);
    assert !Contains(token, Words[5]) && !Contains(token, Words[6]);
    assert !Contains(token, Words[7]) && !Contains(token, Words[8]);
    assert DeviceActions(token) == [];
  }

  /** "audio-sink" alone connects the A2DP source profile, then the AVRCP controller profile. */
  lemma AudioSinkConnectsTwoProfilesInOrder(token: string)
    requires Contains(token, "audio-sink")
    requires !Contains(token, "pair") && !Contains(token, "connect_all") && !Contains(token, "hfp-ag")
    ensures DeviceActions(token) ==
      [ConnectProfile(DefaultDevicePath, A2dpSourceUuid), ConnectProfile(DefaultDevicePath, AvrcpControllerUuid)]
  {
    if Contains(token, "cancle_pair") {
      CancelPairStartsPairing(token);
    }
  }
}
