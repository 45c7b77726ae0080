/**
 * The rendering-service client (src/services/geminiApi.js): the prompt compiler, the
 * request it builds and the search of the response for the generated image. The HTTP
 * exchange itself is the `service` parameter, a function from request to response.
 * JavaScript's falsy strings (`undefined`, `null`, `''`) are the empty string here,
 * since the code only tests them for truthiness.
 */
module GeminiApi {
  import opened Wrappers
  import opened Strings
  import Cabinets

  /** An ordered `Object.entries` list: key then value. */
  type Entries = seq<(string, string)>

  const Separator: char := '、'
  const SpecsFallback: string := "18mm 塑合板、標準五金"
  const MaterialsFallback: string := "白色系材質"

  /** `${k}: ${v}`. */
  function SpecClause(k: string, v: string): string {
    k + ": " + v
  }

  /** `Object.entries(vendorSpecs).map(([k, v]) => `${k}: ${v}`)`: every entry, in order. */
  function SpecClauses(entries: Entries): (r: seq<string>)
    ensures |r| == |entries|
    ensures forall i :: 0 <= i < |r| ==> r[i] == SpecClause(entries[i].0, entries[i].1)
  {
    if entries == [] then [] else [SpecClause(entries[0].0, entries[0].1)] + SpecClauses(entries[1..])
  }

  /** No key and no value contains the separator `、`. */
  predicate NoSeparatorIn(entries: Entries) {
    forall i :: 0 <= i < |entries| ==> Separator !in entries[i].0 && Separator !in entries[i].1
  }

  /** The vendor-spec fragment: the clauses joined by `、`, or the fallback when that is empty. */
  function SpecsText(vendorSpecs: Option<Entries>): string {
    var entries := if vendorSpecs.Some? then vendorSpecs.value else [];
    var joined := Join(SpecClauses(entries), Separator);
    if joined == [] then SpecsFallback else joined
  }

  /**
   * The fallback is used exactly when there is no entry (or no map); otherwise the
   * fragment lists every `k: v` in entry order, and splitting it on `、` gives the
   * clauses back when no key or value contains a `、`.
   */
  lemma SpecsTextSpec(vendorSpecs: Option<Entries>)
    ensures vendorSpecs.None? || vendorSpecs.value == [] ==> SpecsText(vendorSpecs) == SpecsFallback
    ensures vendorSpecs.Some? && vendorSpecs.value != [] ==>
      SpecsText(vendorSpecs) == Join(SpecClauses(vendorSpecs.value), Separator)
    ensures vendorSpecs.Some? && vendorSpecs.value != [] && NoSeparatorIn(vendorSpecs.value) ==>
      Split(SpecsText(vendorSpecs), Separator) == SpecClauses(vendorSpecs.value)
  {
    if vendorSpecs.Some? && vendorSpecs.value != [] {
      var clauses := SpecClauses(vendorSpecs.value);
      JoinEmptyIff(clauses, Separator);
      assert |clauses[0]| >= 2;
      if NoSeparatorIn(vendorSpecs.value) {
        forall i | 0 <= i < |clauses| ensures Separator !in clauses[i] {
          var e := vendorSpecs.value[i];
          assert clauses[i] == e.0 + ": " + e.1;
        }
        SplitJoin(clauses, Separator);
      }
    }
  }

  /** `${zone}使用${mat}`. */
  function MaterialClause(zone: string, mat: string): string {
    zone + "使用" + mat
  }

  /** `.filter(([, v]) => v).map(([zone, mat]) => `${zone}使用${mat}`)`. */
  function MaterialClauses(entries: Entries): seq<string>
  {
    if entries == [] then []
    else
      var head := if entries[0].1 != [] then [MaterialClause(entries[0].0, entries[0].1)] else [];
      head + MaterialClauses(entries[1..])
  }

  /** Some zone has a material assigned. */
  predicate AnyAssigned(entries: Entries) {
    exists i :: 0 <= i < |entries| && entries[i].1 != []
  }

  /** The material fragment: the clauses joined by `、`, or the fallback when that is empty. */
  function MaterialText(materials: Option<Entries>): string {
    var entries := if materials.Some? then materials.value else [];
    var joined := Join(MaterialClauses(entries), Separator);
    if joined == [] then MaterialsFallback else joined
  }

  /** There are no clauses exactly when no zone has a material. */
  lemma {:induction false} MaterialClausesEmptyIff(entries: Entries)
    ensures |MaterialClauses(entries)| == 0 <==> !AnyAssigned(entries)
    decreases |entries|
  {
    if entries != [] {
      MaterialClausesEmptyIff(entries[1..]);
      var head := if entries[0].1 != [] then [MaterialClause(entries[0].0, entries[0].1)] else [];
      assert MaterialClauses(entries) == head + MaterialClauses(entries[1..]);
      if entries[0].1 != [] {
        assert 0 < |entries| && entries[0].1 != [];
      }
      if AnyAssigned(entries[1..]) {
        var k :| 0 <= k < |entries[1..]| && entries[1..][k].1 != [];
        assert entries[k + 1].1 != [];
      }
      if AnyAssigned(entries) && entries[0].1 == [] {
        var k :| 0 <= k < |entries| && entries[k].1 != [];
        assert entries[1..][k - 1].1 != [];
      }
    }
  }

  /** Every clause is the clause of some zone that has a material. */
  lemma {:induction false} MaterialClausesFromAssigned(entries: Entries)
    ensures forall i :: 0 <= i < |MaterialClauses(entries)| ==>
      exists k :: 0 <= k < |entries| && entries[k].1 != [] && MaterialClauses(entries)[i] == MaterialClause(entries[k].0, entries[k].1)
    decreases |entries|
  {
    if entries != [] {
      MaterialClausesFromAssigned(entries[1..]);
      var rest := MaterialClauses(entries[1..]);
      var head := if entries[0].1 != [] then [MaterialClause(entries[0].0, entries[0].1)] else [];
      assert MaterialClauses(entries) == head + rest;
      forall i | 0 <= i < |MaterialClauses(entries)|
        ensures exists k :: 0 <= k < |entries| && entries[k].1 != [] && MaterialClauses(entries)[i] == MaterialClause(entries[k].0, entries[k].1)
      {
        if i < |head| {
          assert MaterialClauses(entries)[i] == MaterialClause(entries[0].0, entries[0].1);
        } else {
          var i' := i - |head|;
          assert MaterialClauses(entries)[i] == rest[i'];
          var k :| 0 <= k < |entries[1..]| && entries[1..][k].1 != [] && rest[i'] == MaterialClause(entries[1..][k].0, entries[1..][k].1);
          assert entries[k + 1] == entries[1..][k];
        }
      }
    } else {
      assert MaterialClauses(entries) == [];
    }
  }

  /** The first clause is the one of the first zone that has a material. */
  lemma {:induction false} MaterialClausesFirst(entries: Entries, k: int)
    requires 0 <= k < |entries| && entries[k].1 != []
    requires forall j :: 0 <= j < k ==> entries[j].1 == []
    ensures |MaterialClauses(entries)| > 0
    ensures MaterialClauses(entries)[0] == MaterialClause(entries[k].0, entries[k].1)
    decreases k
  {
    if k > 0 {
      assert entries[1..][k - 1] == entries[k];
      assert forall j :: 0 <= j < k - 1 ==> entries[1..][j].1 == entries[j + 1].1;
      MaterialClausesFirst(entries[1..], k - 1);
    }
  }

  /** The indices from `k` on of the zones that have a material, in entry order. */
  ghost function AssignedFrom(entries: Entries, k: nat): seq<nat>
    decreases |entries| - k
  {
    if k >= |entries| then []
    else (if entries[k].1 != [] then [k] else []) + AssignedFrom(entries, k + 1)
  }

  /** The assigned indices from `k` on lie in `k .. |entries|`, increase, and are assigned. */
  lemma {:induction false} AssignedFromOrdered(entries: Entries, k: nat)
    ensures forall i :: 0 <= i < |AssignedFrom(entries, k)| ==>
      k <= AssignedFrom(entries, k)[i] < |entries| && entries[AssignedFrom(entries, k)[i]].1 != []
    ensures forall i, j :: 0 <= i < j < |AssignedFrom(entries, k)| ==> AssignedFrom(entries, k)[i] < AssignedFrom(entries, k)[j]
    decreases |entries| - k
  {
    if k < |entries| {
      AssignedFromOrdered(entries, k + 1);
    }
  }

  /** Every assigned index from `k` on is listed. */
  lemma {:induction false} AssignedFromComplete(entries: Entries, k: nat)
    ensures forall j :: k <= j < |entries| && entries[j].1 != [] ==> j in AssignedFrom(entries, k)
    decreases |entries| - k
  {
    if k < |entries| {
      AssignedFromComplete(entries, k + 1);
    }
  }

  /** Clause `i` of the entries from `k` on belongs to the `i`-th assigned index. */
  lemma {:induction false} AssignedFromClauses(entries: Entries, k: nat)
    requires k <= |entries|
    ensures |AssignedFrom(entries, k)| == |MaterialClauses(entries[k..])|
    ensures forall i :: 0 <= i < |AssignedFrom(entries, k)| ==>
      && AssignedFrom(entries, k)[i] < |entries|
      && MaterialClauses(entries[k..])[i] == MaterialClause(entries[AssignedFrom(entries, k)[i]].0, entries[AssignedFrom(entries, k)[i]].1)
    decreases |entries| - k
  {
    if k == |entries| {
      assert entries[k..] == [];
    } else {
      AssignedFromClauses(entries, k + 1);
      var rest := AssignedFrom(entries, k + 1);
      var restClauses := MaterialClauses(entries[k + 1..]);
      var head := if entries[k].1 != [] then [k] else [];
      var headClause := if entries[k].1 != [] then [MaterialClause(entries[k].0, entries[k].1)] else [];
      assert AssignedFrom(entries, k) == head + rest;
      assert entries[k..][0] == entries[k] && entries[k..][1..] == entries[k + 1..];
      assert MaterialClauses(entries[k..]) == headClause + restClauses;
      forall i | 0 <= i < |head + rest|
        ensures (head + rest)[i] < |entries|
        ensures (headClause + restClauses)[i] == MaterialClause(entries[(head + rest)[i]].0, entries[(head + rest)[i]].1)
      {
        if i >= |head| {
          assert (head + rest)[i] == rest[i - |head|];
          assert (headClause + restClauses)[i] == restClauses[i - |head|];
        }
      }
    }
  }

  /**
   * The clauses are exactly those of the zones that have a material, in entry order:
   * clause `i` belongs to entry `ks[i]`, the indices `ks` increase, and every assigned
   * entry has its index among them.
   */
  lemma MaterialClausesIndexed(entries: Entries) returns (ks: seq<nat>)
    ensures |ks| == |MaterialClauses(entries)|
    ensures forall i, j :: 0 <= i < j < |ks| ==> ks[i] < ks[j]
    ensures forall i :: 0 <= i < |ks| ==> ks[i] < |entries| && entries[ks[i]].1 != []
    ensures forall i :: 0 <= i < |ks| ==> MaterialClauses(entries)[i] == MaterialClause(entries[ks[i]].0, entries[ks[i]].1)
    ensures forall k :: 0 <= k < |entries| && entries[k].1 != [] ==> k in ks
  {
    ks := AssignedFrom(entries, 0);
    AssignedFromOrdered(entries, 0);
    AssignedFromComplete(entries, 0);
    AssignedFromClauses(entries, 0);
    assert entries[0..] == entries;
  }

  /** The material fragment falls back exactly when no zone has a material. */
  lemma MaterialTextFallback(materials: Option<Entries>)
    ensures (materials.None? || !AnyAssigned(materials.value)) ==> MaterialText(materials) == MaterialsFallback
    ensures materials.Some? && AnyAssigned(materials.value) ==>
      MaterialText(materials) == Join(MaterialClauses(materials.value), Separator)
  {
    var entries := if materials.Some? then materials.value else [];
    MaterialClausesEmptyIff(entries);
    JoinEmptyIff(MaterialClauses(entries), Separator);
    if AnyAssigned(entries) {
      var clauses := MaterialClauses(entries);
      MaterialClausesFromAssigned(entries);
      var k :| 0 <= k < |entries| && entries[k].1 != [] && clauses[0] == MaterialClause(entries[k].0, entries[k].1);
      assert |clauses[0]| >= 2;
    }
  }

  /**
   * When no zone or material name contains a `、`, splitting the material fragment of
   * assigned zones on `、` gives their clauses back.
   */
  lemma MaterialTextSplits(materials: Option<Entries>)
    requires materials.Some? && AnyAssigned(materials.value) && NoSeparatorIn(materials.value)
    ensures Split(MaterialText(materials), Separator) == MaterialClauses(materials.value)
  {
    var entries := materials.value;
    var clauses := MaterialClauses(entries);
    MaterialTextFallback(materials);
    MaterialClausesFromAssigned(entries);
    forall i | 0 <= i < |clauses| ensures Separator !in clauses[i] {
      var k :| 0 <= k < |entries| && entries[k].1 != [] && clauses[i] == MaterialClause(entries[k].0, entries[k].1);
      assert clauses[i] == entries[k].0 + "使用" + entries[k].1;
    }
    SplitJoin(clauses, Separator);
  }

  /** The environment settings; the empty string stands for a missing setting. */
  datatype Environment = Environment(lightTemp: string, floor: string)

  /** `environment?.lightTemp`, missing when there is no environment. */
  function LightSetting(env: Option<Environment>): string {
    if env.Some? then env.value.lightTemp else ""
  }

  /** `environment?.floor`, missing when there is no environment. */
  function FloorSetting(env: Option<Environment>): string {
    if env.Some? then env.value.floor else ""
  }

  /** The colour-temperature label: a missing setting reads as 4000K, an unknown one as 自然光. */
  function LightLabel(env: Option<Environment>): string {
    var key := if LightSetting(env) != "" then LightSetting(env) else "4000K";
    if key == "3000K" then "暖白色 3000K"
    else if key == "4000K" then "自然光 4000K"
    else if key == "6000K" then "冷白色 6000K"
    else "自然光"
  }

  /** The floor label: a missing or unknown floor reads as 淺色木地板. */
  function FloorLabel(env: Option<Environment>): string {
    var key := if FloorSetting(env) != "" then FloorSetting(env) else "wood-light";
    if key == "polished" then "拋光磁磚地板"
    else if key == "wood-light" then "淺色木地板"
    else if key == "wood-dark" then "深色木地板"
    else "淺色木地板"
  }

  /** The two lookup tables with their defaults. */
  lemma LabelTables(env: Option<Environment>)
    ensures LightSetting(env) == "3000K" ==> LightLabel(env) == "暖白色 3000K"
    ensures LightSetting(env) == "4000K" || LightSetting(env) == "" ==> LightLabel(env) == "自然光 4000K"
    ensures LightSetting(env) == "6000K" ==> LightLabel(env) == "冷白色 6000K"
    ensures LightSetting(env) !in {"", "3000K", "4000K", "6000K"} ==> LightLabel(env) == "自然光"
    ensures FloorSetting(env) == "polished" ==> FloorLabel(env) == "拋光磁磚地板"
    ensures FloorSetting(env) == "wood-dark" ==> FloorLabel(env) == "深色木地板"
    ensures FloorSetting(env) !in {"polished", "wood-dark"} ==> FloorLabel(env) == "淺色木地板"
  {
  }

  const PromptHead: string := "根據這張系統櫃線稿圖，渲染成高品質的室內效果圖。\n\n材質設定："
  const PromptSpecs: string := "\n廠商規格："
  const PromptLight: string := "\n環境設定：\n- 天花板：白色平面天花板\n- 燈光：每個櫃體上方一顆投射燈，色溫 "
  const PromptFloor: string := "\n- 地板："
  const PromptTail: string := "\n視角：正面視角\n風格：現代簡約，寫實室內設計，高品質渲染，室內設計效果圖，8K 清晰"

  /** The lines between the material fragment and the fixed tail: specs, light and floor. */
  function Settings(vendorSpecs: Option<Entries>, env: Option<Environment>): string {
    PromptSpecs + SpecsText(vendorSpecs) + PromptLight + LightLabel(env) + PromptFloor + FloorLabel(env)
  }

  /** `buildPrompt({ cabinets, materials, vendorSpecs, environment })`. */
  function BuildPrompt(cabinets: seq<Cabinets.Cabinet>, materials: Option<Entries>,
                       vendorSpecs: Option<Entries>, env: Option<Environment>): string
  {
    PromptHead + MaterialText(materials) + Settings(vendorSpecs, env) + PromptTail
  }

  /**
   * The prompt is the fixed template around the four fragments: it starts with the
   * fixed heading followed by the material fragment and ends with the fixed viewpoint
   * and style lines; the cabinets play no part in it.
   */
  lemma BuildPromptShape(cabinets: seq<Cabinets.Cabinet>, other: seq<Cabinets.Cabinet>, materials: Option<Entries>,
                         vendorSpecs: Option<Entries>, env: Option<Environment>)
    ensures PromptHead + MaterialText(materials) <= BuildPrompt(cabinets, materials, vendorSpecs, env)
    ensures var p := BuildPrompt(cabinets, materials, vendorSpecs, env);
      |p| >= |PromptTail| && p[|p| - |PromptTail|..] == PromptTail
    ensures BuildPrompt(cabinets, materials, vendorSpecs, env) == BuildPrompt(other, materials, vendorSpecs, env)
  {
    FrameShape(PromptHead + MaterialText(materials), Settings(vendorSpecs, env), PromptTail);
  }

  /**
   * Where the other fragments go: after the heading and the material text come the
   * `廠商規格：` line with the vendor-spec text, then the environment lines ending in the
   * light label and the `地板：` line with the floor label, then the fixed tail.
   */
  lemma BuildPromptLines(cabinets: seq<Cabinets.Cabinet>, materials: Option<Entries>,
                         vendorSpecs: Option<Entries>, env: Option<Environment>)
    ensures var p := BuildPrompt(cabinets, materials, vendorSpecs, env);
      PromptHead + MaterialText(materials) + PromptSpecs + SpecsText(vendorSpecs) <= p
    ensures var p := BuildPrompt(cabinets, materials, vendorSpecs, env);
      PromptHead + MaterialText(materials) + PromptSpecs + SpecsText(vendorSpecs) + PromptLight + LightLabel(env) <= p
    ensures BuildPrompt(cabinets, materials, vendorSpecs, env) ==
      PromptHead + MaterialText(materials) + PromptSpecs + SpecsText(vendorSpecs) + PromptLight + LightLabel(env)
        + PromptFloor + FloorLabel(env) + PromptTail
  {
    LinesShape(PromptHead, MaterialText(materials), PromptSpecs, SpecsText(vendorSpecs), PromptLight, LightLabel(env),
               PromptFloor, FloorLabel(env), PromptTail);
  }

  /** Regrouping the template's concatenation, and its prefixes ending after each fragment. */
  lemma LinesShape(a: string, b: string, c: string, d: string, e: string, f: string, g: string, h: string, i: string)
    ensures a + b + (c + d + e + f + g + h) + i == a + b + c + d + e + f + g + h + i
    ensures a + b + c + d <= a + b + c + d + e + f + g + h + i
    ensures a + b + c + d + e + f <= a + b + c + d + e + f + g + h + i
  {
    var s := a + b + c + d + e + f + g + h + i;
    assert (a + b + c + d) + (e + f + g + h + i) == s;
    assert (a + b + c + d + e + f) + (g + h + i) == s;
  }

  /** A string built as front, middle, back starts with front and ends with back. */
  lemma FrameShape(front: string, middle: string, back: string)
    ensures front <= front + middle + back
    ensures var s := front + middle + back; s[|s| - |back|..] == back
  {
    var s := front + middle + back;
    assert s[..|front|] == front;
  }

  // ---- generateCabinetRender ----

  /** `inline_data: { mime_type, data }`; a missing mime type is the empty string. */
  datatype Blob = Blob(mimeType: string, data: string)

  /** One content part of a request or a response. */
  datatype Part = InlinePart(inlineData: Blob) | TextPart(text: string)

  /** A response candidate; a candidate without content has no parts. */
  datatype Candidate = Candidate(parts: seq<Part>)

  /** The fixed `generationConfig`. */
  datatype GenerationConfig = GenerationConfig(responseModalities: seq<string>, temperature: real, topK: int, topP: real)

  const Model: string := "gemini-2.0-flash-exp"
  const Config: GenerationConfig := GenerationConfig(["IMAGE", "TEXT"], 1.0, 40, 0.95)

  /** What is sent: the model and key in the URL, one content of parts, and the config. */
  datatype Request = Request(model: string, apiKey: string, parts: seq<Part>, config: GenerationConfig)

  /** What comes back: a failed HTTP status with its message, or the decoded candidates. */
  datatype Response = HttpFailure(status: int, message: string) | Delivered(candidates: seq<Candidate>)

  datatype RenderError = MissingApiKey | ApiError(status: int, message: string) | NoImage

  /** The image check: an inline part whose mime type starts with `image/`. */
  predicate IsImagePart(p: Part) {
    p.InlinePart? && "image/" <= p.inlineData.mimeType
  }

  /** The first image part of one candidate. */
  function FirstImageIn(parts: seq<Part>): Option<Blob>
  {
    if parts == [] then None
    else if IsImagePart(parts[0]) then Some(parts[0].inlineData)
    else FirstImageIn(parts[1..])
  }

  /** The first image part over all candidates, candidates in order and parts in order. */
  function FirstImage(cands: seq<Candidate>): Option<Blob>
  {
    if cands == [] then None
    else if FirstImageIn(cands[0].parts).Some? then FirstImageIn(cands[0].parts)
    else FirstImage(cands[1..])
  }

  /** Position (c, p) is an image part. */
  predicate ImageAt(cands: seq<Candidate>, c: int, p: int) {
    0 <= c < |cands| && 0 <= p < |cands[c].parts| && IsImagePart(cands[c].parts[p])
  }

  /** No image part comes before position (c, p) in candidate-then-part order. */
  predicate NoImageBefore(cands: seq<Candidate>, c: int, p: int)
    requires 0 <= c < |cands|
  {
    (forall c', p' :: 0 <= c' < c && 0 <= p' < |cands[c'].parts| ==> !IsImagePart(cands[c'].parts[p']))
    && forall p' :: 0 <= p' < p && p' < |cands[c].parts| ==> !IsImagePart(cands[c].parts[p'])
  }

  /** Within one candidate, the search finds the first image part, if there is one. */
  lemma {:induction false} FirstImageInSpec(parts: seq<Part>)
    ensures FirstImageIn(parts).None? <==> forall p :: 0 <= p < |parts| ==> !IsImagePart(parts[p])
    ensures FirstImageIn(parts).Some? ==>
      exists p :: 0 <= p < |parts| && IsImagePart(parts[p]) &&
        FirstImageIn(parts) == Some(parts[p].inlineData) && forall q :: 0 <= q < p ==> !IsImagePart(parts[q])
  {
    if parts != [] && !IsImagePart(parts[0]) {
      FirstImageInSpec(parts[1..]);
      if FirstImageIn(parts).Some? {
        var p :| 0 <= p < |parts[1..]| && IsImagePart(parts[1..][p]) &&
          FirstImageIn(parts[1..]) == Some(parts[1..][p].inlineData) && forall q :: 0 <= q < p ==> !IsImagePart(parts[1..][q]);
        assert forall q :: 1 <= q < p + 1 ==> parts[q] == parts[1..][q - 1];
        assert IsImagePart(parts[p + 1]);
      } else {
        assert forall p :: 1 <= p < |parts| ==> parts[p] == parts[1..][p - 1];
      }
    } else if parts != [] {
      assert IsImagePart(parts[0]);
    }
  }

  /**
   * The search over the response finds an image exactly when some part is one, and
   * then it is the first in candidate-then-part order.
   */
  lemma {:induction false} FirstImageSpec(cands: seq<Candidate>)
    ensures FirstImage(cands).None? <==> forall c, p :: !ImageAt(cands, c, p)
    ensures FirstImage(cands).Some? ==>
      exists c, p :: ImageAt(cands, c, p) && NoImageBefore(cands, c, p) &&
        FirstImage(cands) == Some(cands[c].parts[p].inlineData)
  {
    if cands != [] {
      FirstImageInSpec(cands[0].parts);
      if FirstImageIn(cands[0].parts).Some? {
        var p :| 0 <= p < |cands[0].parts| && IsImagePart(cands[0].parts[p]) &&
          FirstImageIn(cands[0].parts) == Some(cands[0].parts[p].inlineData) && forall q :: 0 <= q < p ==> !IsImagePart(cands[0].parts[q]);
        assert ImageAt(cands, 0, p) && NoImageBefore(cands, 0, p);
      } else {
        FirstImageSpec(cands[1..]);
        if FirstImage(cands).Some? {
          var c, p :| ImageAt(cands[1..], c, p) && NoImageBefore(cands[1..], c, p) &&
            FirstImage(cands[1..]) == Some(cands[1..][c].parts[p].inlineData);
          assert cands[c + 1] == cands[1..][c];
          forall c', p' | 0 <= c' < c + 1 && 0 <= p' < |cands[c'].parts| ensures !IsImagePart(cands[c'].parts[p']) {
            if c' > 0 {
              assert cands[c'] == cands[1..][c' - 1];
            }
          }
          assert ImageAt(cands, c + 1, p) && NoImageBefore(cands, c + 1, p);
        } else {
          forall c, p ensures !ImageAt(cands, c, p) {
            if 1 <= c < |cands| {
              assert cands[c] == cands[1..][c - 1];
              assert !ImageAt(cands[1..], c - 1, p);
            }
          }
        }
      }
    }
  }

  /** The nested loops with the early return that scan the response for an image. */
  method FindImage(cands: seq<Candidate>) returns (r: Option<Blob>)
    ensures r == FirstImage(cands)
  {
    var i := 0;
    while i < |cands|
      invariant 0 <= i <= |cands|
      invariant FirstImage(cands) == FirstImage(cands[i..])
    {
      var parts := cands[i].parts;
      var j := 0;
      while j < |parts|
        invariant 0 <= j <= |parts|
        invariant FirstImageIn(parts) == FirstImageIn(parts[j..])
      {
        assert parts[j..][1..] == parts[j + 1..];
        if IsImagePart(parts[j]) {
          assert cands[i..][0] == cands[i];
          return Some(parts[j].inlineData);
        }
        j := j + 1;
      }
      assert cands[i..][1..] == cands[i + 1..];
      assert cands[i..][0] == cands[i];
      i := i + 1;
    }
    return None;
  }

  /**
   * `generateCabinetRender`: refuses an empty key before anything is sent; otherwise
   * sends `[image] ++ [text]` (the image only when there is one, the text always last),
   * passes an HTTP failure on, and answers with the first image part of the response,
   * or NoImage when it holds none.
   */
  method GenerateCabinetRender(apiKey: string, imageBase64: string, prompt: string, service: Request -> Response)
    returns (r: Result<Blob, RenderError>, sent: Option<Request>)
    ensures apiKey == "" ==> r == Failure(MissingApiKey) && sent == None
    ensures apiKey != "" ==> sent.Some? && sent.value.model == Model && sent.value.apiKey == apiKey && sent.value.config == Config
    ensures apiKey != "" ==>
      sent.value.parts == (if imageBase64 != "" then [InlinePart(Blob("image/jpeg", imageBase64))] else []) + [TextPart(prompt)]
    ensures apiKey != "" ==> sent.value.parts[|sent.value.parts| - 1] == TextPart(prompt)
    ensures apiKey != "" && service(sent.value).HttpFailure? ==>
      r == Failure(ApiError(service(sent.value).status, service(sent.value).message))
    ensures apiKey != "" && service(sent.value).Delivered? ==>
      match FirstImage(service(sent.value).candidates)
      case Some(b) => r == Success(b)
      case None => r == Failure(NoImage)
  {
    if apiKey == "" {
      return Failure(MissingApiKey), None;
    }
    var parts: seq<Part> := [];
    if imageBase64 != "" {
      parts := parts + [InlinePart(Blob("image/jpeg", imageBase64))];
    }
    parts := parts + [TextPart(prompt)];
    var request := Request(Model, apiKey, parts, Config);
    sent := Some(request);
    var response := service(request);
    if response.HttpFailure? {
      return Failure(ApiError(response.status, response.message)), sent;
    }
    var image := FindImage(response.candidates);
    if image.Some? {
      r := Success(image.value);
    } else {
      r := Failure(NoImage);
    }
  }
}
