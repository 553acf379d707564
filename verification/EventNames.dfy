/** The table of event names, and the parser of event-log files. */
module EventNames {
  import opened Bytes
  import opened EventTag
  import opened EventParser

  /** Event types of the TCG firmware profile. */
  function TcgNames(): (names: map<nat, string>)
    ensures 0x501 !in names
  {
    map[
      0x00000000 := "EV_PREBOOT_CERT",
      0x00000001 := "EV_POST_CODE",
      0x00000002 := "EV_UNUSED",
      0x00000003 := "EV_NO_ACTION",
      0x00000004 := "EV_SEPARATOR",
      0x00000005 := "EV_ACTION",
      0x00000006 := "EV_EVENT_TAG",
      0x00000007 := "EV_S_CRTM_CONTENTS",
      0x00000008 := "EV_S_CRTM_VERSION",
      0x00000009 := "EV_CPU_MICROCODE",
      0x0000000A := "EV_PLATFORM_CONFIG_FLAGS",
      0x0000000B := "EV_TABLE_OF_DEVICES",
      0x0000000C := "EV_COMPACT_HASH",
      0x0000000D := "EV_IPL",
      0x0000000E := "EV_IPL_PARTITION_DATA",
      0x0000000F := "EV_NONHOST_CODE",
      0x00000010 := "EV_NONHOST_CONFIG",
      0x00000011 := "EV_NONHOST_INFO",
      0x00000012 := "EV_OMIT_BOOT_DEVICE_EVENTS"
    ]
  }

  /** Event types of UEFI firmware. */
  function EfiNames(): (names: map<nat, string>)
    ensures 0x501 !in names
  {
    map[
      0x80000000 := "EV_EFI_EVENT_BASE",
      0x80000001 := "EV_EFI_VARIABLE_DRIVER_CONFIG",
      0x80000002 := "EV_EFI_VARIABLE_BOOT",
      0x80000003 := "EV_EFI_BOOT_SERVICES_APPLICATION",
      0x80000004 := "EV_EFI_BOOT_SERVICES_DRIVER",
      0x80000005 := "EV_EFI_RUNTIME_SERVICES_DRIVER",
      0x80000006 := "EV_EFI_GPT_EVENT",
      0x80000007 := "EV_EFI_ACTION"
    ]
  }

  /** Event types of later UEFI firmware. */
  function EfiLaterNames(): (names: map<nat, string>)
    ensures 0x501 !in names
  {
    map[
      0x80000008 := "EV_EFI_PLATFORM_FIRMWARE_BLOB",
      0x80000009 := "EV_EFI_HANDOFF_TABLES",
      0x8000000A := "EV_EFI_PLATFORM_FIRMWARE_BLOB2",
      0x8000000B := "EV_EFI_HANDOFF_TABLES2",
      0x8000000C := "EV_EFI_VARIABLE_BOOT2",
      0x80000010 := "EV_EFI_HCRTM_EVENT",
      0x800000E0 := "EV_EFI_VARIABLE_AUTHORITY",
      0x800000E1 := "EV_EFI_SPDM_FIRMWARE_BLOB",
      0x800000E2 := "EV_EFI_SPDM_FIRMWARE_CONFIG"
    ]
  }

  /** Event types of Intel TXT; the 0x501 events are named by their rank in the log instead. */
  function TxtNames(): (names: map<nat, string>)
    ensures 0x501 !in names
  {
    map[
      0x401 := "PCR_MAPPING",
      0x402 := "HASH_START",
      0x403 := "COMBINED_HASH",
      0x404 := "MLE_HASH",
      0x40a := "BIOSAC_REG_DATA",
      0x40b := "CPU_SCRTM_STAT",
      0x40c := "LCP_CONTROL_HASH",
      0x40d := "ELEMENTS_HASH",
      0x40e := "STM_HASH",
      0x40f := "OSSINITDATA_CAP_HASH",
      0x410 := "SINIT_PUBKEY_HASH",
      0x411 := "LCP_HASH",
      0x412 := "LCP_DETAILS_HASH",
      0x413 := "LCP_AUTHORITIES_HASH",
      0x414 := "NV_INFO_HASH",
      0x416 := "EVTYPE_KM_HASH",
      0x417 := "EVTYPE_BPM_HASH",
      0x418 := "EVTYPE_KM_INFO_HASH",
      0x419 := "EVTYPE_BPM_INFO_HASH",
      0x41a := "EVTYPE_BOOT_POL_HASH",
      0x4ff := "CAP_VALUE"
    ]
  }

  function EventNameList(): (names: map<nat, string>)
    ensures 0x501 !in names
  {
    TcgNames() + EfiNames() + EfiLaterNames() + TxtNames()
  }

  lemma MergedNames(a: map<nat, string>, b: map<nat, string>)
    requires (forall t :: t in a ==> a[t] != "") && (forall t :: t in b ==> b[t] != "")
    ensures forall t :: t in a + b ==> (a + b)[t] != ""
  {
  }

  lemma TcgNamed()
    ensures forall t :: t in TcgNames() ==> TcgNames()[t] != ""
  {
  }

  lemma EfiNamed()
    ensures forall t :: t in EfiNames() ==> EfiNames()[t] != ""
    ensures forall t :: t in EfiLaterNames() ==> EfiLaterNames()[t] != ""
  {
  }

  lemma TxtNamed()
    ensures forall t :: t in TxtNames() ==> TxtNames()[t] != ""
  {
  }

  /** Every event type of the table has a name; 0x501 is not among them. */
  lemma TableNames()
    ensures 0x501 !in EventNameList() && forall t :: t in EventNameList() ==> EventNameList()[t] != ""
  {
    hide TcgNames, EfiNames, EfiLaterNames, TxtNames;
    TcgNamed();
    EfiNamed();
    TxtNamed();
    MergedNames(TcgNames(), EfiNames());
    MergedNames(TcgNames() + EfiNames(), EfiLaterNames());
    MergedNames(TcgNames() + EfiNames() + EfiLaterNames(), TxtNames());
  }

  /** The file front end, which tags events as UEFI events. */
  method GetEventLogs(u: Unicode, file: seq<byte>) returns (out: Outcome)
    ensures out == ParseFile(Mode(false, u, EventNameList()), file)
  {
    hide ParseFile, EventNameList;
    out := EventParser.GetEventLogs(Mode(false, u, EventNameList()), file);
  }

  /** The firmware profile numbers its events from 0. */
  lemma TcgRows(i: nat)
    requires i < 19
    ensures i in TcgNames()
    ensures TcgNames()[i] ==
      ["EV_PREBOOT_CERT", "EV_POST_CODE", "EV_UNUSED", "EV_NO_ACTION", "EV_SEPARATOR", "EV_ACTION", "EV_EVENT_TAG",
       "EV_S_CRTM_CONTENTS", "EV_S_CRTM_VERSION", "EV_CPU_MICROCODE", "EV_PLATFORM_CONFIG_FLAGS",
       "EV_TABLE_OF_DEVICES", "EV_COMPACT_HASH", "EV_IPL", "EV_IPL_PARTITION_DATA", "EV_NONHOST_CODE",
       "EV_NONHOST_CONFIG", "EV_NONHOST_INFO", "EV_OMIT_BOOT_DEVICE_EVENTS"][i]
  {
  }

  /** The UEFI events follow from 0x80000000. */
  lemma EfiRows(i: nat)
    requires i < 8
    ensures 0x80000000 + i in EfiNames()
    ensures EfiNames()[0x80000000 + i] ==
      ["EV_EFI_EVENT_BASE", "EV_EFI_VARIABLE_DRIVER_CONFIG", "EV_EFI_VARIABLE_BOOT",
       "EV_EFI_BOOT_SERVICES_APPLICATION", "EV_EFI_BOOT_SERVICES_DRIVER", "EV_EFI_RUNTIME_SERVICES_DRIVER",
       "EV_EFI_GPT_EVENT", "EV_EFI_ACTION"][i]
  {
  }

  /** The later ones from 0x80000008. */
  lemma EfiLaterRows(i: nat)
    requires i < 5
    ensures 0x80000008 + i in EfiLaterNames()
    ensures EfiLaterNames()[0x80000008 + i] ==
      ["EV_EFI_PLATFORM_FIRMWARE_BLOB", "EV_EFI_HANDOFF_TABLES", "EV_EFI_PLATFORM_FIRMWARE_BLOB2",
       "EV_EFI_HANDOFF_TABLES2", "EV_EFI_VARIABLE_BOOT2"][i]
  {
  }

  /** The TXT events follow from 0x401, */
  lemma TxtRows(i: nat)
    requires i < 4
    ensures 0x401 + i in TxtNames()
    ensures TxtNames()[0x401 + i] ==
      ["PCR_MAPPING", "HASH_START", "COMBINED_HASH", "MLE_HASH"][i]
  {
  }

  /** from 0x40a */
  lemma TxtLaterRows(i: nat)
    requires i < 11
    ensures 0x40a + i in TxtNames()
    ensures TxtNames()[0x40a + i] ==
      ["BIOSAC_REG_DATA", "CPU_SCRTM_STAT", "LCP_CONTROL_HASH", "ELEMENTS_HASH", "STM_HASH", "OSSINITDATA_CAP_HASH",
       "SINIT_PUBKEY_HASH", "LCP_HASH", "LCP_DETAILS_HASH", "LCP_AUTHORITIES_HASH", "NV_INFO_HASH"][i]
  {
  }

  /** and from 0x416. */
  lemma TxtPolicyRows(i: nat)
    requires i < 5
    ensures 0x416 + i in TxtNames()
    ensures TxtNames()[0x416 + i] ==
      ["EVTYPE_KM_HASH", "EVTYPE_BPM_HASH", "EVTYPE_KM_INFO_HASH", "EVTYPE_BPM_INFO_HASH", "EVTYPE_BOOT_POL_HASH"][i]
  {
  }

  /** The rest of the table. */
  lemma OtherRows()
    ensures EfiLaterNames().Keys >= {0x80000010, 0x800000E0, 0x800000E1, 0x800000E2} && 0x4ff in TxtNames()
    ensures EfiLaterNames()[0x80000010] == "EV_EFI_HCRTM_EVENT" && EfiLaterNames()[0x800000E0] == "EV_EFI_VARIABLE_AUTHORITY"
    ensures EfiLaterNames()[0x800000E1] == "EV_EFI_SPDM_FIRMWARE_BLOB" && EfiLaterNames()[0x800000E2] == "EV_EFI_SPDM_FIRMWARE_CONFIG"
    ensures TxtNames()[0x4ff] == "CAP_VALUE"
  {
  }

  lemma TcgKeys()
    ensures forall t :: t in TcgNames() ==> t < 0x13
  {
  }

  lemma EfiKeys()
    ensures forall t :: t in EfiNames() ==> 0x80000000 <= t < 0x80000008
    ensures forall t :: t in EfiLaterNames() ==> 0x80000008 <= t
  {
  }

  lemma TxtKeys()
    ensures forall t :: t in TxtNames() ==> 0x401 <= t < 0x500
  {
  }

  /** Merging the parts of the table changes none of them. */
  lemma TableParts(t: nat)
    ensures t in TcgNames() ==> t in EventNameList() && EventNameList()[t] == TcgNames()[t]
    ensures t in EfiNames() ==> t in EventNameList() && EventNameList()[t] == EfiNames()[t]
    ensures t in EfiLaterNames() ==> t in EventNameList() && EventNameList()[t] == EfiLaterNames()[t]
    ensures t in TxtNames() ==> t in EventNameList() && EventNameList()[t] == TxtNames()[t]
  {
    hide TcgNames, EfiNames, EfiLaterNames, TxtNames;
    TcgKeys();
    EfiKeys();
    TxtKeys();
  }
}
