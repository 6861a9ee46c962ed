/** The converter's fixed voice tables. */
module Catalog {
  import opened Common
  /** The voice combobox entries: display name -> voice id. */
  function VoiceOptions(): map<string, string> { map[
    "晓晓 (年轻女声-推荐)" := "zh-CN-XiaoxiaoNeural",
    "云希 (年轻男声)" := "zh-CN-YunxiNeural",
    "云扬 (新闻男声)" := "zh-CN-YunyangNeural",
    "晓萱 (成熟女声)" := "zh-CN-XiaoxuanNeural",
    "晓梦 (情感女声)" := "zh-CN-XiaomengNeural",
    "晓颜 (聊天女声)" := "zh-CN-XiaoruiNeural",
    "Jenny (美式英文-女)" := "en-US-JennyNeural",
    "Guy (美式英文-男)" := "en-US-GuyNeural",
    "Aria (美式英文-女)" := "en-US-AriaNeural",
    "Davis (美式英文-男)" := "en-US-DavisNeural",
    "Amber (美式英文-女)" := "en-US-AmberNeural",
    "Ana (美式英文-女童)" := "en-US-AnaNeural",
    "Nanami (日文-女)" := "ja-JP-NanamiNeural",
    "Keita (日文-男)" := "ja-JP-KeitaNeural",
    "Aoi (日文-女)" := "ja-JP-AoiNeural",
    "法语-女声" := "fr-FR-DeniseNeural",
    "德语-女声" := "de-DE-KatjaNeural",
    "西班牙语-女声" := "es-ES-ElviraNeural",
    "韩语-女声" := "ko-KR-SunHiNeural",
    "俄语-女声" := "ru-RU-SvetlanaNeural"
  ]
  }

  /** The fixed voice id -> file-name suffix table of `get_output_filename`. */
  function SuffixTable(): map<string, string> { map[
    "zh-CN-XiaoxiaoNeural" := "Xiaoxiao",
    "zh-CN-YunxiNeural" := "Yunxi",
    "zh-CN-YunyangNeural" := "Yunyang",
    "zh-CN-XiaoxuanNeural" := "Xiaoxuan",
    "zh-CN-XiaomengNeural" := "Xiaomeng",
    "zh-CN-XiaoruiNeural" := "Xiaorui",
    "en-US-JennyNeural" := "Jenny",
    "en-US-GuyNeural" := "Guy",
    "en-US-AriaNeural" := "Aria",
    "en-US-DavisNeural" := "Davis",
    "en-US-AmberNeural" := "Amber",
    "en-US-AnaNeural" := "Ana",
    "ja-JP-NanamiNeural" := "Nanami",
    "ja-JP-KeitaNeural" := "Keita",
    "ja-JP-AoiNeural" := "Aoi",
    "fr-FR-DeniseNeural" := "Denise",
    "de-DE-KatjaNeural" := "Katja",
    "es-ES-ElviraNeural" := "Elvira",
    "ko-KR-SunHiNeural" := "SunHi",
    "ru-RU-SvetlanaNeural" := "Svetlana"
  ]
  }

  /** `id` is "<lang>-<region>-<name>Neural" with hyphen-free parts, the shape
      of every voice id in the catalog. */
  predicate NeuralId(id: string, lang: string, region: string, name: string) {
    lang != [] && NoChar(lang, '-') && NoChar(region, '-') && NoChar(name, '-')
    && id == lang + "-" + region + "-" + name + "Neural"
  }

  /** `id` is a key of the suffix table, of the form
      "<lang>-<region>-<value>Neural" where <value> is its table value. */
  predicate TableEntry(id: string, lang: string, region: string) {
    id in SuffixTable() && NeuralId(id, lang, region, SuffixTable()[id])
  }

  // The table's entries, one literal per proof; TableKeyShaped combines them.

  lemma XiaoxiaoEntry()
    ensures TableEntry("zh-CN-XiaoxiaoNeural", "zh", "CN")
  {
  }

  lemma YunxiEntry()
    ensures TableEntry("zh-CN-YunxiNeural", "zh", "CN")
  {
  }

  lemma YunyangEntry()
    ensures TableEntry("zh-CN-YunyangNeural", "zh", "CN")
  {
  }

  lemma XiaoxuanEntry()
    ensures TableEntry("zh-CN-XiaoxuanNeural", "zh", "CN")
  {
  }

  lemma XiaomengEntry()
    ensures TableEntry("zh-CN-XiaomengNeural", "zh", "CN")
  {
  }

  lemma XiaoruiEntry()
    ensures TableEntry("zh-CN-XiaoruiNeural", "zh", "CN")
  {
  }

  lemma JennyEntry()
    ensures TableEntry("en-US-JennyNeural", "en", "US")
  {
  }

  lemma GuyEntry()
    ensures TableEntry("en-US-GuyNeural", "en", "US")
  {
  }

  lemma AriaEntry()
    ensures TableEntry("en-US-AriaNeural", "en", "US")
  {
  }

  lemma DavisEntry()
    ensures TableEntry("en-US-DavisNeural", "en", "US")
  {
  }

  lemma AmberEntry()
    ensures TableEntry("en-US-AmberNeural", "en", "US")
  {
  }

  lemma AnaEntry()
    ensures TableEntry("en-US-AnaNeural", "en", "US")
  {
  }

  lemma NanamiEntry()
    ensures TableEntry("ja-JP-NanamiNeural", "ja", "JP")
  {
  }

  lemma KeitaEntry()
    ensures TableEntry("ja-JP-KeitaNeural", "ja", "JP")
  {
  }

  lemma AoiEntry()
    ensures TableEntry("ja-JP-AoiNeural", "ja", "JP")
  {
  }

  lemma DeniseEntry()
    ensures TableEntry("fr-FR-DeniseNeural", "fr", "FR")
  {
  }

  lemma KatjaEntry()
    ensures TableEntry("de-DE-KatjaNeural", "de", "DE")
  {
  }

  lemma ElviraEntry()
    ensures TableEntry("es-ES-ElviraNeural", "es", "ES")
  {
  }

  lemma SunHiEntry()
    ensures TableEntry("ko-KR-SunHiNeural", "ko", "KR")
  {
  }

  lemma SvetlanaEntry()
    ensures TableEntry("ru-RU-SvetlanaNeural", "ru", "RU")
  {
  }

  /** Every key of the suffix table is "<lang>-<region>-<value>Neural". */
  lemma {:induction false} TableKeyShaped(k: string)
    requires k in SuffixTable()
    ensures exists lang, region :: NeuralId(k, lang, region, SuffixTable()[k])
  {
    if k == "zh-CN-XiaoxiaoNeural" {
      XiaoxiaoEntry();
      assert TableEntry(k, "zh", "CN");
    } else if k == "zh-CN-YunxiNeural" {
      YunxiEntry();
      assert TableEntry(k, "zh", "CN");
    } else if k == "zh-CN-YunyangNeural" {
      YunyangEntry();
      assert TableEntry(k, "zh", "CN");
    } else if k == "zh-CN-XiaoxuanNeural" {
      XiaoxuanEntry();
      assert TableEntry(k, "zh", "CN");
    } else if k == "zh-CN-XiaomengNeural" {
      XiaomengEntry();
      assert TableEntry(k, "zh", "CN");
    } else if k == "zh-CN-XiaoruiNeural" {
      XiaoruiEntry();
      assert TableEntry(k, "zh", "CN");
    } else if k == "en-US-JennyNeural" {
      JennyEntry();
      assert TableEntry(k, "en", "US");
    } else if k == "en-US-GuyNeural" {
      GuyEntry();
      assert TableEntry(k, "en", "US");
    } else if k == "en-US-AriaNeural" {
      AriaEntry();
      assert TableEntry(k, "en", "US");
    } else if k == "en-US-DavisNeural" {
      DavisEntry();
      assert TableEntry(k, "en", "US");
    } else if k == "en-US-AmberNeural" {
      AmberEntry();
      assert TableEntry(k, "en", "US");
    } else if k == "en-US-AnaNeural" {
      AnaEntry();
      assert TableEntry(k, "en", "US");
    } else if k == "ja-JP-NanamiNeural" {
      NanamiEntry();
      assert TableEntry(k, "ja", "JP");
    } else if k == "ja-JP-KeitaNeural" {
      KeitaEntry();
      assert TableEntry(k, "ja", "JP");
    } else if k == "ja-JP-AoiNeural" {
      AoiEntry();
      assert TableEntry(k, "ja", "JP");
    } else if k == "fr-FR-DeniseNeural" {
      DeniseEntry();
      assert TableEntry(k, "fr", "FR");
    } else if k == "de-DE-KatjaNeural" {
      KatjaEntry();
      assert TableEntry(k, "de", "DE");
    } else if k == "es-ES-ElviraNeural" {
      ElviraEntry();
      assert TableEntry(k, "es", "ES");
    } else if k == "ko-KR-SunHiNeural" {
      SunHiEntry();
      assert TableEntry(k, "ko", "KR");
    } else if k == "ru-RU-SvetlanaNeural" {
      SvetlanaEntry();
      assert TableEntry(k, "ru", "RU");
    }
  }
}

/** Output naming of the converter: the voice suffix and `get_output_filename`. */
module Naming {
  import opened Common
  import opened Paths
  import opened Catalog

  /** `voice_options.get(display_name, "")`: the empty id exactly for a name
      outside the voice list, and otherwise an id the suffix table knows. */
  function VoiceIdOf(displayName: string): (id: string)
    ensures id == "" <==> displayName !in VoiceOptions()
    ensures id != "" ==> id == VoiceOptions()[displayName] && id in SuffixTable()
  {
    CatalogAgreesWithRule();
    assert "" !in SuffixTable();
    if displayName in VoiceOptions() then VoiceOptions()[displayName] else ""
  }

  /** A trailing "Neural" removed, if there is one. */
  function DropNeural(name: string): (r: string)
    ensures |r| <= |name| && name[..|r|] == r
    ensures EndsWith(name, "Neural") ==> r + "Neural" == name
    ensures !EndsWith(name, "Neural") ==> r == name
  {
    if EndsWith(name, "Neural") then name[..|name| - 6] else name
  }

  /** The suffix derived from the id's shape when the id is not in the table:
      "Unknown" without a hyphen (the empty id included), the whole id with
      one hyphen, and with two or more the text after the last hyphen minus a
      trailing "Neural". */
  function StructuralSuffix(voiceId: string): (r: string)
    ensures CountChar(voiceId, '-') == 0 ==> r == "Unknown"
    ensures CountChar(voiceId, '-') == 1 ==> r == voiceId
    ensures CountChar(voiceId, '-') >= 2 ==> r == DropNeural(voiceId[RFind(voiceId, '-') + 1..])
  {
    CountCharIn(voiceId, '-');
    if voiceId != [] && '-' in voiceId then
      var parts := Split(voiceId, '-');
      LastPiece(voiceId, '-');
      if |parts| >= 3 then
        DropNeural(parts[|parts| - 1])
      else voiceId
    else "Unknown"
  }

  /** The suffix `get_output_filename` puts between the stem and ".mp3": the
      table value for a listed id, the structural rule otherwise; since the
      table agrees with the rule, always what the rule derives. */
  function VoiceSuffix(voiceId: string): (r: string)
    ensures r == StructuralSuffix(voiceId)
  {
    if voiceId in SuffixTable() then
      TableEntryAgrees(voiceId);
      SuffixTable()[voiceId]
    else StructuralSuffix(voiceId)
  }

  /** `get_output_filename(input_file)` with the selected voice id as a
      parameter: an ".mp3" name that, for a '/'-free id, is a plain file name
      whose `os.path.splitext` gives back the stem, "_" and the suffix. The
      collision loop builds its numbered names from that part. */
  function OutputFilename(inputFile: string, voiceId: string): (name: string)
    ensures EndsWith(name, ".mp3")
    ensures NoChar(voiceId, '/') ==>
      && NoChar(name, '/')
      && SplitExt(name) == (Stem(inputFile) + "_" + VoiceSuffix(voiceId), ".mp3")
  {
    NameShape(Stem(inputFile), voiceId);
    Stem(inputFile) + "_" + VoiceSuffix(voiceId) + ".mp3"
  }

  // ---------------------------------------------------------------------------
  // Properties
  // ---------------------------------------------------------------------------

  /** With at least two hyphens the structural rule takes the text after the
      last hyphen and drops a trailing "Neural". */
  lemma {:induction false} StructuralSuffixNamed(voiceId: string, head: string, last: string)
    requires CountChar(voiceId, '-') >= 2
    requires voiceId == head + "-" + last && NoChar(last, '-')
    ensures StructuralSuffix(voiceId) == DropNeural(last)
  {
    var k := |head|;
    assert voiceId[k] == '-' && voiceId[k + 1..] == last;
    forall j | k < j < |voiceId|
      ensures voiceId[j] != '-'
    {
      assert voiceId[j] == last[j - k - 1];
    }
    RFindUnique(voiceId, '-', k);
  }

  /** A suffix derived from an id without '/' has no '/' either. */
  lemma {:induction false} SuffixHasNoSlash(voiceId: string)
    requires NoChar(voiceId, '/')
    ensures NoChar(StructuralSuffix(voiceId), '/')
  {
    var r := StructuralSuffix(voiceId);
    if CountChar(voiceId, '-') >= 2 {
      var seg := voiceId[RFind(voiceId, '-') + 1..];
      NoCharDrop(voiceId, RFind(voiceId, '-') + 1, '/');
      NoCharTake(seg, |r|, '/');
    }
  }

  /** A name built as stem + "_" + suffix + ".mp3" from '/'-free parts has no
      '/' and splits at the dot of ".mp3". */
  lemma {:induction false} SuffixedNameShape(stem: string, suffix: string)
    requires NoChar(stem, '/') && NoChar(suffix, '/')
    ensures NoChar(stem + "_" + suffix + ".mp3", '/')
    ensures SplitExt(stem + "_" + suffix + ".mp3") == (stem + "_" + suffix, ".mp3")
  {
    var root := stem + "_" + suffix;
    NoCharAppend(stem, "_", '/');
    NoCharAppend(stem + "_", suffix, '/');
    var name := root + ".mp3";
    NoCharAppend(root, ".mp3", '/');
    assert name[|stem|] == '_';
    assert name[|root| + 1..] == "mp3";
    SplitExtAtLastDot(name, |root|, |stem|);
  }

  /** For a '/'-free id, the name built from a '/'-free stem has no '/' and
      splits at the dot of ".mp3". */
  lemma {:induction false} NameShape(stem: string, voiceId: string)
    requires NoChar(stem, '/')
    ensures NoChar(voiceId, '/') ==>
      && NoChar(stem + "_" + VoiceSuffix(voiceId) + ".mp3", '/')
      && SplitExt(stem + "_" + VoiceSuffix(voiceId) + ".mp3") == (stem + "_" + VoiceSuffix(voiceId), ".mp3")
  {
    if NoChar(voiceId, '/') {
      SuffixHasNoSlash(voiceId);
      assert VoiceSuffix(voiceId) == StructuralSuffix(voiceId);
      SuffixedNameShape(stem, VoiceSuffix(voiceId));
    }
  }

  /** Three hyphen-free parts joined by hyphens split back into those parts. */
  lemma {:induction false} SplitThree(a: string, b: string, c: string)
    requires NoChar(a, '-') && NoChar(b, '-') && NoChar(c, '-')
    ensures Split(a + "-" + b + "-" + c, '-') == [a, b, c]
  {
    var bc := b + "-" + c;
    assert Split(bc, '-') == [b, c] by {
      SplitNone(c, '-');
      SplitAfter(b, c, '-');
    }
    assert a + "-" + b + "-" + c == a + "-" + bc;
    SplitAfter(a, bc, '-');
  }

  /** The structural rule on an id with three hyphen segments. */
  lemma {:induction false} StructuralOfThree(id: string, a: string, b: string, c: string)
    requires Split(id, '-') == [a, b, c]
    ensures StructuralSuffix(id) == DropNeural(c)
  {
    assert !NoChar(id, '-');
  }

  /** The structural rule on an id "<lang>-<region>-<name>Neural" gives <name>. */
  lemma {:induction false} NeuralVoice(lang: string, region: string, name: string)
    requires NoChar(lang, '-') && NoChar(region, '-') && NoChar(name, '-')
    ensures StructuralSuffix(lang + "-" + region + "-" + name + "Neural") == name
  {
    var tail := name + "Neural";
    NoCharAppend(name, "Neural", '-');
    SplitThree(lang, region, tail);
    assert lang + "-" + region + "-" + tail == lang + "-" + region + "-" + name + "Neural";
    StructuralOfThree(lang + "-" + region + "-" + tail, lang, region, tail);
    assert tail[..|tail| - 6] == name;
  }

  /** The suffix table is a cache of the structural rule: on every key it
      holds exactly what the rule derives. */
  lemma TableEntryAgrees(k: string)
    requires k in SuffixTable()
    ensures SuffixTable()[k] == StructuralSuffix(k)
  {
    TableKeyShaped(k);
    var lang, region :| NeuralId(k, lang, region, SuffixTable()[k]);
    NeuralVoice(lang, region, SuffixTable()[k]);
  }

  /** Every voice id offered by the catalog has a table entry, and the table
      agrees with the structural rule on it. */
  lemma CatalogAgreesWithRule()
    ensures forall d :: d in VoiceOptions() ==>
      VoiceOptions()[d] in SuffixTable() && SuffixTable()[VoiceOptions()[d]] == StructuralSuffix(VoiceOptions()[d])
  {
    assert VoiceOptions().Values <= SuffixTable().Keys;
    forall d | d in VoiceOptions()
      ensures VoiceOptions()[d] in SuffixTable() && SuffixTable()[VoiceOptions()[d]] == StructuralSuffix(VoiceOptions()[d])
    {
      assert VoiceOptions()[d] in VoiceOptions().Values;
      TableEntryAgrees(VoiceOptions()[d]);
    }
  }

  /** A display name outside the catalog gives the id "", named "Unknown". */
  lemma {:induction false} UnknownDisplayName(displayName: string)
    requires displayName !in VoiceOptions()
    ensures VoiceSuffix(VoiceIdOf(displayName)) == "Unknown"
  {
    assert "" !in SuffixTable();
  }
}
