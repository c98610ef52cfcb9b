/** The two 0xAB reports: voice download progress and map save result. */
module ResultFrames {
  import opened Bytes
  import opened Frames

  // TuyaReportVoiceDownLoadResult; the file version is sent by protocol version 1 only.
  function VoiceFrame(version: byte, langId: nat, fileVersion: nat, status: byte, schedu: byte): seq<byte> {
    Seal(AB_BODY, [0xAB, version, 0, 0, 0, 0, 0x35] + ToNb32(langId) +
                  (if version == 1 then ToNb32(fileVersion) else []) + [status, schedu])
  }

  // TuyaReportMapSaveResult
  function MapSaveFrame(cmd: byte, ret: byte): seq<byte> {
    Seal(AB_BODY, [0xAB, 0, 0, 0, 0, 0, cmd, ret])
  }

  datatype Voice = Voice(version: byte, langId: nat, fileVersion: nat, status: byte, schedu: byte)

  // A reader that knows only the layout.
  function ReadVoice(f: seq<byte>): Voice
    requires |f| >= 14 && (f[1] == 1 ==> |f| >= 18)
  {
    if f[1] == 1
    then Voice(f[1], NbTo32(f[7..11]), NbTo32(f[11..15]), f[15], f[16])
    else Voice(f[1], NbTo32(f[7..11]), 0, f[11], f[12])
  }

  /** Both frames obey the 0xAB law with an exact length byte, and the voice frame reads back field by field. */
  lemma VoiceReadsBack(version: byte, langId: nat, fileVersion: nat, status: byte, schedu: byte)
    requires langId < 0x1_0000_0000 && fileVersion < 0x1_0000_0000
    ensures var f := VoiceFrame(version, langId, fileVersion, status, schedu);
            && FrameLaw(6, f) && f[0] == 0xAB && f[1] == version && f[6] == 0x35
            && f[7..11] == ToNb32(langId) && (version == 1 ==> f[11..15] == ToNb32(fileVersion))
            && f[|f| - 3] == status && f[|f| - 2] == schedu
            && f[5] == (if version == 1 then 11 else 7) && |f| == (if version == 1 then 18 else 14)
            && ReadVoice(f) == Voice(version, langId, if version == 1 then fileVersion else 0, status, schedu)
  {
    if version == 1 {
      VersionOneReadsBack(langId, fileVersion, status, schedu);
    } else {
      OtherVersionReadsBack(version, langId, fileVersion, status, schedu);
    }
  }

  lemma VersionOneReadsBack(langId: nat, fileVersion: nat, status: byte, schedu: byte)
    requires langId < 0x1_0000_0000 && fileVersion < 0x1_0000_0000
    ensures var f := VoiceFrame(1, langId, fileVersion, status, schedu);
            && FrameLaw(AB_BODY, f) && f[0] == 0xAB && f[1] == 1 && f[6] == 0x35 && f[5] == 11 && |f| == 18
            && f[7..11] == ToNb32(langId) && f[11..15] == ToNb32(fileVersion) && f[15] == status && f[16] == schedu
            && ReadVoice(f) == Voice(1, langId, fileVersion, status, schedu)
  {
    var f := VoiceFrame(1, langId, fileVersion, status, schedu);
    VersionOneParts(ToNb32(langId), ToNb32(fileVersion), status, schedu);
    UnsignedWord(langId);
    UnsignedWord(fileVersion);
  }

  lemma VersionOneParts(lang: seq<byte>, file: seq<byte>, status: byte, schedu: byte)
    requires |lang| == 4 && |file| == 4
    ensures var f := Seal(AB_BODY, [0xAB, 1, 0, 0, 0, 0, 0x35] + lang + file + [status, schedu]);
            && FrameLaw(AB_BODY, f) && f[0] == 0xAB && f[1] == 1 && f[6] == 0x35 && f[5] == 11 && |f| == 18
            && f[7..11] == lang && f[11..15] == file && f[15] == status && f[16] == schedu
  {
    var raw := [0xAB, 1, 0, 0, 0, 0, 0x35] + lang + file + [status, schedu];
    SealObeys(AB_BODY, raw);
    assert raw[7..11] == lang && raw[11..15] == file;
  }

  lemma OtherVersionReadsBack(version: byte, langId: nat, fileVersion: nat, status: byte, schedu: byte)
    requires langId < 0x1_0000_0000 && version != 1
    ensures var f := VoiceFrame(version, langId, fileVersion, status, schedu);
            && FrameLaw(AB_BODY, f) && f[0] == 0xAB && f[6] == 0x35 && f[5] == 7 && |f| == 14
            && f[1] == version && f[7..11] == ToNb32(langId) && f[11] == status && f[12] == schedu
            && ReadVoice(f) == Voice(version, langId, 0, status, schedu)
  {
    var f := VoiceFrame(version, langId, fileVersion, status, schedu);
    UnsignedWord(langId);
    var head := [0xAB, version, 0, 0, 0, 0, 0x35] + ToNb32(langId);
    assert head + [] == head;
    SealObeys(AB_BODY, head + [status, schedu]);
    assert f[7..11] == ToNb32(langId);
  }

  lemma MapSaveLaw(cmd: byte, ret: byte)
    ensures var f := MapSaveFrame(cmd, ret);
            FrameLaw(6, f) && f[0] == 0xAB && f[5] == 2 && f[6] == cmd && f[7] == ret
  {
    SealIsTheLaw(AB_BODY, [0xAB, 0, 0, 0, 0, 0, cmd, ret], MapSaveFrame(cmd, ret));
  }

  method ReportVoice(version: byte, langId: nat, fileVersion: nat, status: byte, schedu: byte) returns (raw: seq<byte>)
    ensures raw == VoiceFrame(version, langId, fileVersion, status, schedu)
  {
    raw := [0xAB, version, 0x00, 0x00, 0x00, 0x00, 0x35] + ToNb32(langId);
    if version == 0x01 {
      raw := raw + ToNb32(fileVersion);
    } else {
      assert raw + [] == raw;
    }
    raw := raw + [status, schedu];
    raw := SealFrame(AB_BODY, raw);
  }

  method ReportMapSave(cmd: byte, ret: byte) returns (raw: seq<byte>)
    ensures raw == MapSaveFrame(cmd, ret)
  {
    raw := SealFrame(AB_BODY, [0xAB, 0x00, 0x00, 0x00, 0x00, 0x00, cmd, ret]);
  }
}
