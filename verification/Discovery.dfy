/** Device enumerations and their names (lib/include/mbootcore/domain/DeviceTypes.hpp,
    lib/src/dsp/DSPRepository.cpp). */
module Discovery {

  datatype Vendor =
    | Unknown | Qualcomm | MediaTek | UNISOC | Samsung | Rockchip | Spreadtrum | Apple | Google | Huawei | Custom

  datatype Protocol =
    | Unknown | Sahara | Firehose | Fastboot | MediaTekBROM | MediaTekDA | UNISOCBootROM | UNISOCFDL
    | USBStream | Custom

  datatype BootMode =
    | Unknown | BootROM | EDL | Firehose | Fastboot | ADB | Recovery | DownloadMode | Preloader | BROM
    | Normal | Download | Custom

  datatype Origin = Unknown | System | User | Portable | Online | Builtin

  datatype ChipsetId = ChipsetId(vendor: string, family: string, variant: string) {
    function ToString(): string {
      vendor + "/" + family + (if variant == "" then "" else "/" + variant)
    }
  }

  function VendorName(v: Vendor): string {
    match v
    case Qualcomm => "Qualcomm"
    case MediaTek => "MediaTek"
    case UNISOC => "UNISOC"
    case Samsung => "Samsung"
    case Rockchip => "Rockchip"
    case Spreadtrum => "Spreadtrum"
    case Apple => "Apple"
    case Google => "Google"
    case Huawei => "Huawei"
    case Custom => "Custom"
    case Unknown => "Unknown"
  }

  function VendorOf(s: string): Vendor {
    if s == "Qualcomm" then Vendor.Qualcomm
    else if s == "MediaTek" then Vendor.MediaTek
    else if s == "UNISOC" then Vendor.UNISOC
    else if s == "Samsung" then Vendor.Samsung
    else if s == "Rockchip" then Vendor.Rockchip
    else if s == "Spreadtrum" then Vendor.Spreadtrum
    else if s == "Apple" then Vendor.Apple
    else if s == "Google" then Vendor.Google
    else if s == "Huawei" then Vendor.Huawei
    else if s == "Custom" then Vendor.Custom
    else Vendor.Unknown
  }

  function ProtocolName(p: Protocol): string {
    match p
    case Sahara => "Sahara"
    case Firehose => "Firehose"
    case Fastboot => "Fastboot"
    case MediaTekBROM => "MediaTekBROM"
    case MediaTekDA => "MediaTekDA"
    case UNISOCBootROM => "UNISOCBootROM"
    case UNISOCFDL => "UNISOCFDL"
    case USBStream => "USBStream"
    case Custom => "Custom"
    case Unknown => "Unknown"
  }

  function ProtocolOf(s: string): Protocol {
    if s == "Sahara" then Protocol.Sahara
    else if s == "Firehose" then Protocol.Firehose
    else if s == "Fastboot" then Protocol.Fastboot
    else if s == "MediaTekBROM" then Protocol.MediaTekBROM
    else if s == "MediaTekDA" then Protocol.MediaTekDA
    else if s == "UNISOCBootROM" then Protocol.UNISOCBootROM
    else if s == "UNISOCFDL" then Protocol.UNISOCFDL
    else if s == "USBStream" then Protocol.USBStream
    else if s == "Custom" then Protocol.Custom
    else Protocol.Unknown
  }

  /** Two of the enumerators have no name of their own. */
  function BootModeName(b: BootMode): string {
    match b
    case BootROM => "BootROM"
    case EDL => "EDL"
    case Firehose => "Firehose"
    case Fastboot => "Fastboot"
    case ADB => "ADB"
    case Recovery => "Recovery"
    case DownloadMode => "DownloadMode"
    case Preloader => "Preloader"
    case BROM => "BROM"
    case Custom => "Custom"
    case Normal => "Unknown"
    case Download => "Unknown"
    case Unknown => "Unknown"
  }

  function BootModeOf(s: string): BootMode {
    if s == "BootROM" then BootMode.BootROM
    else if s == "EDL" then BootMode.EDL
    else if s == "Firehose" then BootMode.Firehose
    else if s == "Fastboot" then BootMode.Fastboot
    else if s == "ADB" then BootMode.ADB
    else if s == "Recovery" then BootMode.Recovery
    else if s == "DownloadMode" then BootMode.DownloadMode
    else if s == "Preloader" then BootMode.Preloader
    else if s == "BROM" then BootMode.BROM
    else if s == "Custom" then BootMode.Custom
    else BootMode.Unknown
  }

  function OriginName(o: Origin): string {
    match o
    case System => "system"
    case User => "user"
    case Portable => "portable"
    case Online => "online"
    case Builtin => "builtin"
    case Unknown => "unknown"
  }

  predicate HasName(b: BootMode) {
    !b.Unknown? && !b.Normal? && !b.Download?
  }

  /** Printing and reading a boot mode gives it back exactly when it is Unknown or has a name. */
  lemma BootModeRoundTrip(b: BootMode)
    ensures BootModeOf(BootModeName(b)) == b <==> b.Unknown? || HasName(b)
    ensures BootModeName(b) == "Unknown" <==> !HasName(b)
  {
  }

  lemma VendorRoundTrip(v: Vendor)
    ensures VendorOf(VendorName(v)) == v
  {
  }

  lemma ProtocolRoundTrip(p: Protocol)
    ensures ProtocolOf(ProtocolName(p)) == p
  {
  }

  lemma OriginNamesDistinct(o: Origin, p: Origin)
    ensures OriginName(o) == OriginName(p) <==> o == p
  {
  }
}
