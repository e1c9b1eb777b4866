/** The language handling of core/translate_text.py: the code table for the
    translator (also in pipeline.py; fill_missing_rows.py has a shorter
    table) and batch_translate_text. That function groups the items by
    source language, copies the texts already in the target language, and
    translates the others in strides of the batch size, halving the batch
    size after a rate-limit error while each stride still advances by the
    step the range was built with; the results go back to their slots
    through `zip`. The translator is the parameter `translate`, a function
    of the source language and the text. */
module Language {
  import opened Wrappers
  import opened PyStr

  /** The table of map_language_code_for_deep_translator. */
  const Mapping: map<string, string> := map[
    "zh-cn" := "zh-CN", "zh-hans" := "zh-CN", "zh-tw" := "zh-TW", "zh-hant" := "zh-TW",
    "zh" := "zh-CN", "jw" := "jv", "iw" := "he", "in" := "id", "ceb" := "tl"]

  /** The seven-entry table of fill_missing_rows.py. */
  const ShortMapping: map<string, string> := map[
    "zh-cn" := "zh-CN", "zh-tw" := "zh-TW", "zh" := "zh-CN",
    "jw" := "jv", "iw" := "he", "in" := "id", "ceb" := "tl"]

  /** `mapping.get(lang_code, lang_code)`. */
  function MapLanguageCode(code: string): string {
    if code in Mapping then Mapping[code] else code
  }

  function MapLanguageCodeShort(code: string): string {
    if code in ShortMapping then ShortMapping[code] else code
  }

  /** No code the table produces is itself a key of the table. */
  lemma ValuesAreNotKeys()
    ensures forall k :: k in Mapping ==> Mapping[k] !in Mapping
  {
    assert Mapping.Keys == {"zh-cn", "zh-hans", "zh-tw", "zh-hant", "zh", "jw", "iw", "in", "ceb"};
    forall k | k in Mapping
      ensures Mapping[k] !in Mapping
    {
      assert Mapping[k] in {"zh-CN", "zh-TW", "jv", "he", "id", "tl"};
    }
  }

  /** The same for the seven-entry table. */
  lemma ShortValuesAreNotKeys()
    ensures forall k :: k in ShortMapping ==> ShortMapping[k] !in ShortMapping
  {
    assert ShortMapping.Keys == {"zh-cn", "zh-tw", "zh", "jw", "iw", "in", "ceb"};
    forall k | k in ShortMapping
      ensures ShortMapping[k] !in ShortMapping
    {
      assert ShortMapping[k] in {"zh-CN", "zh-TW", "jv", "he", "id", "tl"};
    }
  }

  /** A code is left as it is exactly when it is not in the table. */
  lemma MapUnchangedIff(code: string)
    ensures MapLanguageCode(code) == code <==> code !in Mapping
    ensures MapLanguageCodeShort(code) == code <==> code !in ShortMapping
  {
    ValuesAreNotKeys();
    ShortValuesAreNotKeys();
  }

  /** Mapping a mapped code again changes nothing. */
  lemma MapIdempotent(code: string)
    ensures MapLanguageCode(MapLanguageCode(code)) == MapLanguageCode(code)
    ensures MapLanguageCodeShort(MapLanguageCodeShort(code)) == MapLanguageCodeShort(code)
  {
    ValuesAreNotKeys();
    ShortValuesAreNotKeys();
  }

  /** The two tables differ only on "zh-hans" and "zh-hant", which the
      shorter one passes through. */
  lemma ShortTableDiffers(code: string)
    ensures code != "zh-hans" && code != "zh-hant" ==> MapLanguageCodeShort(code) == MapLanguageCode(code)
    ensures MapLanguageCodeShort("zh-hans") == "zh-hans" && MapLanguageCode("zh-hans") == "zh-CN"
    ensures MapLanguageCodeShort("zh-hant") == "zh-hant" && MapLanguageCode("zh-hant") == "zh-TW"
  {
    assert Mapping.Keys == ShortMapping.Keys + {"zh-hans", "zh-hant"};
    assert "zh-hans" !in ShortMapping && "zh-hant" !in ShortMapping;
  }

  /** One `(text, lang, orig_idx)` triple. */
  datatype Item = Item(text: string, lang: string, origIdx: int)

  /** What one `translator.translate(text)` call does: it returns the
      translation, or raises an exception whose `str` is `message`. */
  datatype Outcome = Translated(text: string) | Raised(message: string)

  /** The rate-limit test of the except branch: "429" in the message, or
      "too many requests" in it once lower-cased. */
  predicate IsRateLimit(message: string) {
    Contains(message, "429") || Contains(AsciiLower(message), "too many requests")
  }

  predicate RateLimited(o: Outcome) {
    o.Raised? && IsRateLimit(o.message)
  }

  /** What batch_results gets from one call: the translation, or the
      original text when the call raises. */
  function Result(o: Outcome, text: string): string {
    match o
    case Translated(t) => t
    case Raised(_) => text
  }

  /** Every text translated or kept, in order: the reference the batching
      is measured against. */
  function Results(texts: seq<string>, lang: string, translate: (string, string) -> Outcome): (r: seq<string>)
    ensures |r| == |texts|
    ensures forall k :: 0 <= k < |texts| ==> r[k] == Result(translate(lang, texts[k]), texts[k])
  {
    seq(|texts|, k requires 0 <= k < |texts| => Result(translate(lang, texts[k]), texts[k]))
  }

  type Pos = n: int | 1 <= n witness 1

  function Min(a: int, b: int): int { if a <= b then a else b }

  /** batch_size after one call: `max(1, batch_size // 2)` after a
      rate-limit error, unchanged otherwise. */
  function NextSize(o: Outcome, size: Pos): Pos {
    if RateLimited(o) then (if size / 2 < 1 then 1 else size / 2) else size
  }

  /** The texts produced so far, and the current batch_size. */
  datatype Batched = Batched(texts: seq<string>, size: Pos)

  /** The calls of one batch, in order, from batch size `size`. */
  function BatchCalls(batch: seq<string>, lang: string, translate: (string, string) -> Outcome, size: Pos): Batched {
    if batch == [] then Batched([], size)
    else
      var before := BatchCalls(batch[..|batch| - 1], lang, translate, size);
      var o := translate(lang, batch[|batch| - 1]);
      Batched(before.texts + [Result(o, batch[|batch| - 1])], NextSize(o, before.size))
  }

  /** The loop `for i in range(0, len(texts), step)` from position `i` on:
      each round takes `texts[i:min(i + batch_size, len(texts))]` with the
      current batch size, while `i` advances by the step the range was
      built with. */
  function Strides(texts: seq<string>, lang: string, translate: (string, string) -> Outcome,
                   step: Pos, i: nat, size: Pos): Batched
    decreases |texts| - i
  {
    if i >= |texts| then Batched([], size)
    else
      var b := BatchCalls(texts[i..Min(i + size, |texts|)], lang, translate, size);
      var rest := Strides(texts, lang, translate, step, i + step, b.size);
      Batched(b.texts + rest.texts, rest.size)
  }

  /** The same loop advancing past the batch it took, as the batching is
      evidently meant to work. */
  function CorrectedStrides(texts: seq<string>, lang: string, translate: (string, string) -> Outcome,
                            i: nat, size: Pos): Batched
    decreases |texts| - i
  {
    if i >= |texts| then Batched([], size)
    else
      var j := Min(i + size, |texts|);
      var b := BatchCalls(texts[i..j], lang, translate, size);
      var rest := CorrectedStrides(texts, lang, translate, j, b.size);
      Batched(b.texts + rest.texts, rest.size)
  }

  /** The Python list slot `results[idx]` refers to in a list of length n
      (negative indices count from the end), if any. */
  function Slot(idx: int, n: nat): Option<nat> {
    if 0 <= idx < n then Some(idx)
    else if -(n as int) <= idx < 0 then Some(idx + n)
    else None
  }

  /** `for v, idx in zip(vals, slots): results[idx] = v`: the pairs up to
      the end of the shorter list, in order; None is the IndexError of the
      first slot outside the list. */
  function WriteAll(res: seq<string>, slots: seq<int>, vals: seq<string>): (w: Option<seq<string>>)
    ensures w.Some? ==> |w.value| == |res|
    decreases |slots|
  {
    var m := Min(|slots|, |vals|);
    if m == 0 then Some(res)
    else
      match WriteAll(res, slots[..m - 1], vals[..m - 1])
      case None => None
      case Some(r) =>
        match Slot(slots[m - 1], |r|)
        case None => None
        case Some(p) => Some(r[p := vals[m - 1]])
  }

  /** The languages of `items`, each once, in order of first appearance
      (the key order of `lang_groups`). */
  function Langs(items: seq<Item>): seq<string> {
    if items == [] then []
    else
      var init := Langs(items[..|items| - 1]);
      var l := items[|items| - 1].lang;
      if l in init then init else init + [l]
  }

  /** The positions of the items in language `l`, in order. */
  function Group(items: seq<Item>, l: string): (g: seq<nat>)
    ensures forall j: nat :: j in g <==> j < |items| && items[j].lang == l
    ensures forall k :: 0 <= k < |g| ==> g[k] < |items| && items[g[k]].lang == l
    ensures forall a, b :: 0 <= a < b < |g| ==> g[a] < g[b]
  {
    if items == [] then []
    else
      var init := Group(items[..|items| - 1], l);
      if items[|items| - 1].lang == l then init + [|items| - 1] else init
  }

  /** The `texts` and `indices` lists of a group. */
  function TextsOf(items: seq<Item>, group: seq<nat>): seq<string>
    requires forall k :: 0 <= k < |group| ==> group[k] < |items|
  {
    seq(|group|, k requires 0 <= k < |group| => items[group[k]].text)
  }

  function IndicesOf(items: seq<Item>, group: seq<nat>): seq<int>
    requires forall k :: 0 <= k < |group| ==> group[k] < |items|
  {
    seq(|group|, k requires 0 <= k < |group| => items[group[k]].origIdx)
  }

  /** One entry of `lang_groups`: a source language with the texts and the
      original indices of its items, in input order. */
  datatype LangGroup = LangGroup(lang: string, texts: seq<string>, indices: seq<int>)

  function GroupOf(items: seq<Item>, l: string): LangGroup {
    var group := Group(items, l);
    LangGroup(l, TextsOf(items, group), IndicesOf(items, group))
  }

  /** `lang_groups`, as its entries in key order. */
  function LangGroups(items: seq<Item>): (groups: seq<LangGroup>)
    ensures |groups| == |Langs(items)|
  {
    seq(|Langs(items)|, g requires 0 <= g < |Langs(items)| => GroupOf(items, Langs(items)[g]))
  }

  /** The results list and batch_size between language groups. */
  datatype Progress = Progress(results: seq<string>, size: int)

  /** One round of the loop over `lang_groups`. A group in the target
      language is copied. Otherwise a zero batch size is the ValueError of
      `range`, a negative one an empty range, and a positive one translates
      the group in strides and writes back as far as `zip` reaches. */
  function GroupStep(grp: LangGroup, target: string, translate: (string, string) -> Outcome, st: Progress): Option<Progress> {
    if grp.lang == target then
      match WriteAll(st.results, grp.indices, grp.texts)
      case None => None
      case Some(res) => Some(Progress(res, st.size))
    else if st.size == 0 then None
    else if st.size < 0 then Some(st)
    else
      var b := Strides(grp.texts, grp.lang, translate, st.size, 0, st.size);
      match WriteAll(st.results, grp.indices, b.texts)
      case None => None
      case Some(res) => Some(Progress(res, b.size))
  }

  /** The state after the groups `groups`, in order, from `st`; None once
      one raised. */
  function Run(groups: seq<LangGroup>, target: string, translate: (string, string) -> Outcome, st: Progress): Option<Progress> {
    if groups == [] then Some(st)
    else
      match Run(groups[..|groups| - 1], target, translate, st)
      case None => None
      case Some(st') => GroupStep(groups[|groups| - 1], target, translate, st')
  }

  /** `results = [""] * len(texts_with_langs)` at the given batch_size. */
  function Start(items: seq<Item>, batchSize: int): Progress {
    Progress(seq(|items|, _ => ""), batchSize)
  }

  /** What batch_translate_text returns; None when it raises. */
  function BatchTranslated(items: seq<Item>, target: string, translate: (string, string) -> Outcome,
                           batchSize: int): Option<seq<string>>
  {
    match Run(LangGroups(items), target, translate, Start(items, batchSize))
    case None => None
    case Some(st) => Some(st.results)
  }

  /** The calls of one batch, with batch_size halving on rate limits. */
  method TranslateBatch(batch: seq<string>, lang: string, translate: (string, string) -> Outcome, batchSize: Pos)
    returns (batchResults: seq<string>, size: Pos)
    ensures Batched(batchResults, size) == BatchCalls(batch, lang, translate, batchSize)
  {
    batchResults := [];
    size := batchSize;
    for k := 0 to |batch|
      invariant Batched(batchResults, size) == BatchCalls(batch[..k], lang, translate, batchSize)
    {
      assert batch[..k + 1][..k] == batch[..k];
      match translate(lang, batch[k]) {
        case Translated(t) =>
          batchResults := batchResults + [t];
        case Raised(message) =>
          batchResults := batchResults + [batch[k]];
          if IsRateLimit(message) {
            size := if size / 2 < 1 then 1 else size / 2;
          }
      }
    }
    assert batch[..|batch|] == batch;
  }

  /** The translated_batch of one group in a source language other than the
      target, and the batch size it leaves. */
  method TranslateGroup(texts: seq<string>, lang: string, translate: (string, string) -> Outcome, batchSize: Pos)
    returns (translated: seq<string>, size: Pos)
    ensures Batched(translated, size) == Strides(texts, lang, translate, batchSize, 0, batchSize)
  {
    translated := [];
    size := batchSize;
    var i := 0;
    while i < |texts|
      invariant Strides(texts, lang, translate, batchSize, 0, batchSize) ==
        Batched(translated + Strides(texts, lang, translate, batchSize, i, size).texts,
                Strides(texts, lang, translate, batchSize, i, size).size)
      decreases |texts| - i
    {
      var batch := texts[i..Min(i + size, |texts|)];
      var batchResults;
      ghost var rest := Strides(texts, lang, translate, batchSize, i + batchSize, BatchCalls(batch, lang, translate, size).size);
      batchResults, size := TranslateBatch(batch, lang, translate, size);
      assert translated + (batchResults + rest.texts) == (translated + batchResults) + rest.texts;
      translated := translated + batchResults;
      i := i + batchSize;
    }
    assert Strides(texts, lang, translate, batchSize, i, size).texts == [];
  }

  /** The write-back loop over `zip(vals, slots)`, stopping (false) at the
      IndexError of the first slot outside the list. */
  method WriteBack(results: array<string>, slots: seq<int>, vals: seq<string>) returns (ok: bool)
    modifies results
    ensures ok <==> WriteAll(old(results[..]), slots, vals).Some?
    ensures ok ==> results[..] == WriteAll(old(results[..]), slots, vals).value
  {
    ghost var res := results[..];
    var m := Min(|slots|, |vals|);
    for k := 0 to m
      invariant WriteAll(res, slots[..k], vals[..k]) == Some(results[..])
    {
      assert slots[..k + 1][..k] == slots[..k] && vals[..k + 1][..k] == vals[..k];
      var slot := Slot(slots[k], results.Length);
      if slot.None? {
        WriteAllAborts(res, slots, vals, k + 1);
        return false;
      }
      results[slot.value] := vals[k];
    }
    WriteAllZip(res, slots, vals);
    ok := true;
  }

  /** Only the pairs `zip` forms are written. */
  lemma WriteAllZip(res: seq<string>, slots: seq<int>, vals: seq<string>)
    ensures var m := Min(|slots|, |vals|);
      WriteAll(res, slots, vals) == WriteAll(res, slots[..m], vals[..m])
  {
    var m := Min(|slots|, |vals|);
    if m > 0 {
      assert slots[..m][..m - 1] == slots[..m - 1] && vals[..m][..m - 1] == vals[..m - 1];
    }
  }

  /** A write that raises makes every longer run of writes raise. */
  lemma {:induction false} WriteAllAborts(res: seq<string>, slots: seq<int>, vals: seq<string>, k: nat)
    requires k <= Min(|slots|, |vals|)
    requires WriteAll(res, slots[..k], vals[..k]).None?
    ensures WriteAll(res, slots, vals).None?
    decreases Min(|slots|, |vals|) - k
  {
    if k < Min(|slots|, |vals|) {
      assert slots[..k + 1][..k] == slots[..k] && vals[..k + 1][..k] == vals[..k];
      WriteAllAborts(res, slots, vals, k + 1);
    } else {
      WriteAllZip(res, slots, vals);
    }
  }

  /** One round of the loop over `lang_groups`, on the results list in place. */
  method TranslateLangGroup(results: array<string>, grp: LangGroup, target: string,
                            translate: (string, string) -> Outcome, size: int)
    returns (ok: bool, newSize: int)
    modifies results
    ensures ok <==> GroupStep(grp, target, translate, Progress(old(results[..]), size)).Some?
    ensures ok ==> GroupStep(grp, target, translate, Progress(old(results[..]), size)) == Some(Progress(results[..], newSize))
  {
    newSize := size;
    if grp.lang == target {
      ok := WriteBack(results, grp.indices, grp.texts);
    } else if size == 0 {
      ok := false;
    } else if size < 0 {
      ok := true;
    } else {
      var translated;
      translated, newSize := TranslateGroup(grp.texts, grp.lang, translate, size);
      ok := WriteBack(results, grp.indices, translated);
    }
  }

  /** batch_translate_text with the translator as a parameter. */
  method BatchTranslateText(items: seq<Item>, target: string, translate: (string, string) -> Outcome, batchSize: int)
    returns (r: Option<seq<string>>)
    ensures r == BatchTranslated(items, target, translate, batchSize)
    ensures r.Some? ==> |r.value| == |items|
  {
    var results := new string[|items|](_ => "");
    var size := batchSize;
    var groups := LangGroups(items);
    ghost var start := Start(items, batchSize);
    assert results[..] == start.results;
    for g := 0 to |groups|
      invariant Run(groups[..g], target, translate, start) == Some(Progress(results[..], size))
    {
      assert groups[..g + 1][..g] == groups[..g];
      var ok;
      ok, size := TranslateLangGroup(results, groups[g], target, translate, size);
      if !ok {
        RunAborts(groups, target, translate, start, g + 1);
        return None;
      }
    }
    assert groups[..|groups|] == groups;
    r := Some(results[..]);
  }

  /** Once a group raises, the whole call has raised. */
  lemma {:induction false} RunAborts(groups: seq<LangGroup>, target: string, translate: (string, string) -> Outcome,
                                     st: Progress, k: nat)
    requires k <= |groups|
    requires Run(groups[..k], target, translate, st).None?
    ensures Run(groups, target, translate, st).None?
    decreases |groups| - k
  {
    if k < |groups| {
      assert groups[..k + 1][..k] == groups[..k];
      RunAborts(groups, target, translate, st, k + 1);
    } else {
      assert groups[..k] == groups;
    }
  }

  // ---------------------------------------------------------------------
  // The batching on its own.

  /** A batch yields its texts translated or kept, and never grows the batch size. */
  lemma {:induction false} BatchCallsResults(batch: seq<string>, lang: string, translate: (string, string) -> Outcome, size: Pos)
    ensures BatchCalls(batch, lang, translate, size).texts == Results(batch, lang, translate)
    ensures BatchCalls(batch, lang, translate, size).size <= size
  {
    if batch != [] {
      var init := batch[..|batch| - 1];
      BatchCallsResults(init, lang, translate, size);
      assert Results(batch, lang, translate) == Results(init, lang, translate) + [Result(translate(lang, batch[|batch| - 1]), batch[|batch| - 1])];
    }
  }

  /** No call of `texts` draws a rate-limit error. */
  predicate CallsUnlimited(texts: seq<string>, lang: string, translate: (string, string) -> Outcome) {
    forall k :: 0 <= k < |texts| ==> !RateLimited(translate(lang, texts[k]))
  }

  /** Without rate-limit errors the batch size stays as it is. */
  lemma {:induction false} BatchCallsUnlimited(batch: seq<string>, lang: string, translate: (string, string) -> Outcome, size: Pos)
    requires CallsUnlimited(batch, lang, translate)
    ensures BatchCalls(batch, lang, translate, size).size == size
  {
    if batch != [] {
      var init := batch[..|batch| - 1];
      assert CallsUnlimited(init, lang, translate) by {
        forall k | 0 <= k < |init| ensures !RateLimited(translate(lang, init[k])) {
          assert init[k] == batch[k];
        }
      }
      BatchCallsUnlimited(init, lang, translate, size);
      assert !RateLimited(translate(lang, batch[|batch| - 1]));
    }
  }

  /** The batch size after the whole batch is at most the one after its first k calls. */
  lemma {:induction false} BatchCallsShrinks(batch: seq<string>, lang: string, translate: (string, string) -> Outcome, size: Pos, k: nat)
    requires k <= |batch|
    ensures BatchCalls(batch, lang, translate, size).size <= BatchCalls(batch[..k], lang, translate, size).size
    decreases |batch|
  {
    if k < |batch| {
      var init := batch[..|batch| - 1];
      assert init[..k] == batch[..k];
      BatchCallsShrinks(init, lang, translate, size, k);
    } else {
      assert batch[..k] == batch;
    }
  }

  lemma {:induction false} ResultsSplit(texts: seq<string>, lang: string, translate: (string, string) -> Outcome, i: nat, j: nat)
    requires i <= j <= |texts|
    ensures Results(texts[i..j], lang, translate) + Results(texts[j..], lang, translate) == Results(texts[i..], lang, translate)
  {
    var a := Results(texts[i..j], lang, translate);
    var b := Results(texts[j..], lang, translate);
    var c := Results(texts[i..], lang, translate);
    forall k | 0 <= k < |c|
      ensures (a + b)[k] == c[k]
    {
      if k < |a| {
        assert texts[i..j][k] == texts[i..][k];
      } else {
        assert texts[j..][k - |a|] == texts[i..][k];
      }
    }
  }

  /** Without rate-limit errors the strides tile the group: every text is
      translated or kept, in order, and the batch size is unchanged. */
  lemma {:induction false} StridesUnlimited(texts: seq<string>, lang: string, translate: (string, string) -> Outcome,
                                            step: Pos, i: nat)
    requires CallsUnlimited(texts, lang, translate)
    ensures Strides(texts, lang, translate, step, i, step) == Batched(Results(texts[Min(i, |texts|)..], lang, translate), step)
    decreases |texts| - i
  {
    if i < |texts| {
      var j := Min(i + step, |texts|);
      var batch := texts[i..j];
      assert CallsUnlimited(batch, lang, translate) by {
        forall k | 0 <= k < |batch| ensures !RateLimited(translate(lang, batch[k])) {
          assert batch[k] == texts[i + k];
        }
      }
      BatchCallsResults(batch, lang, translate, step);
      BatchCallsUnlimited(batch, lang, translate, step);
      StridesUnlimited(texts, lang, translate, step, i + step);
      assert Min(i + step, |texts|) == j;
      ResultsSplit(texts, lang, translate, i, j);
    }
  }

  /** Each stride yields no more texts than the positions it covers, so a
      group never yields more texts than it has. */
  lemma {:induction false} StridesLength(texts: seq<string>, lang: string, translate: (string, string) -> Outcome,
                                         step: Pos, i: nat, size: Pos)
    requires size <= step
    ensures |Strides(texts, lang, translate, step, i, size).texts| <= |texts| - Min(i, |texts|)
    ensures Strides(texts, lang, translate, step, i, size).size <= size
    decreases |texts| - i
  {
    if i < |texts| {
      var batch := texts[i..Min(i + size, |texts|)];
      BatchCallsResults(batch, lang, translate, size);
      StridesLength(texts, lang, translate, step, i + step, BatchCalls(batch, lang, translate, size).size);
    }
  }

  /** A rate-limit error on the first text of a group of more than
      step + step/2 texts makes its translated_batch shorter than the group:
      the next stride takes at most half a step, and the range skips the rest. */
  lemma RateLimitDropsTexts(texts: seq<string>, lang: string, translate: (string, string) -> Outcome, step: Pos)
    requires 2 <= step && |texts| > step + step / 2
    requires RateLimited(translate(lang, texts[0]))
    ensures |Strides(texts, lang, translate, step, 0, step).texts| < |texts|
  {
    var first := texts[0..step];
    BatchCallsResults(first, lang, translate, step);
    BatchCallsShrinks(first, lang, translate, step, 1);
    assert first[..1][..0] == [];
    var s1 := BatchCalls(first, lang, translate, step).size;
    assert s1 <= step / 2;
    var second := texts[step..Min(step + s1, |texts|)];
    BatchCallsResults(second, lang, translate, s1);
    var s2 := BatchCalls(second, lang, translate, s1).size;
    StridesLength(texts, lang, translate, step, step + step, s2);
  }

  /** The batching as evidently meant: every text of the group is translated
      or kept, in order, whatever errors the calls raise. */
  lemma {:induction false} CorrectedStridesComplete(texts: seq<string>, lang: string, translate: (string, string) -> Outcome,
                                                    i: nat, size: Pos)
    requires i <= |texts|
    ensures CorrectedStrides(texts, lang, translate, i, size).texts == Results(texts[i..], lang, translate)
    decreases |texts| - i
  {
    if i < |texts| {
      var j := Min(i + size, |texts|);
      var batch := texts[i..j];
      BatchCallsResults(batch, lang, translate, size);
      CorrectedStridesComplete(texts, lang, translate, j, BatchCalls(batch, lang, translate, size).size);
      ResultsSplit(texts, lang, translate, i, j);
    }
  }

  /** A translator that answers the text "a" with an HTTP 429 error and
      marks every other text as translated. */
  function RateLimitedAtA(lang: string, text: string): Outcome {
    if text == "a" then Raised("429 Client Error: Too Many Requests") else Translated(text + "!")
  }

  /** The five example items, all English, with their own positions. */
  function ExampleItems(): seq<Item> {
    [Item("a", "en", 0), Item("b", "en", 1), Item("c", "en", 2), Item("d", "en", 3), Item("e", "en", 4)]
  }

  lemma ExampleGroup()
    ensures Langs(ExampleItems()) == ["en"] && Group(ExampleItems(), "en") == [0, 1, 2, 3, 4]
  {
    SingleLanguage(ExampleItems(), "en");
  }

  lemma ExampleGroups()
    ensures LangGroups(ExampleItems()) == [LangGroup("en", ["a", "b", "c", "d", "e"], [0, 1, 2, 3, 4])]
  {
    var items := ExampleItems();
    ExampleGroup();
    var group: seq<nat> := [0, 1, 2, 3, 4];
    var texts := TextsOf(items, group);
    assert |texts| == 5 && texts[0] == "a" && texts[1] == "b" && texts[2] == "c" && texts[3] == "d" && texts[4] == "e";
    var indices := IndicesOf(items, group);
    assert |indices| == 5 && indices[0] == 0 && indices[1] == 1 && indices[2] == 2 && indices[3] == 3 && indices[4] == 4;
    assert texts == ["a", "b", "c", "d", "e"] && indices == [0, 1, 2, 3, 4];
    assert GroupOf(items, "en") == LangGroup("en", texts, indices);
    var groups := LangGroups(items);
    assert |groups| == 1 && groups[0] == GroupOf(items, Langs(items)[0]);
  }

  /** Items all in language l form one group holding every position. */
  lemma {:induction false} SingleLanguage(items: seq<Item>, l: string)
    requires items != []
    requires forall k :: 0 <= k < |items| ==> items[k].lang == l
    ensures Langs(items) == [l]
    ensures Group(items, l) == seq(|items|, k requires 0 <= k < |items| => k as nat)
  {
    var init := items[..|items| - 1];
    if init != [] {
      SingleLanguage(init, l);
    }
  }

  /** A batch of one text makes one call. */
  lemma {:induction false} BatchCallsOne(t: string, lang: string, translate: (string, string) -> Outcome, size: Pos)
    ensures BatchCalls([t], lang, translate, size)
      == Batched([Result(translate(lang, t), t)], NextSize(translate(lang, t), size))
  {
    assert [t][..0] == [];
  }

  /** The first batch [a, b] at size 2: "a" draws the rate-limit error and
      is kept, the size halves to 1, and "b" is translated. */
  lemma ExampleFirstBatch()
    ensures BatchCalls(["a", "b"], "en", RateLimitedAtA, 2) == Batched(["a", "b!"], 1)
  {
    assert OccursAt("429 Client Error: Too Many Requests", "429", 0);
    assert RateLimited(RateLimitedAtA("en", "a"));
    assert ["a", "b"][..1] == ["a"];
    BatchCallsOne("a", "en", RateLimitedAtA, 2);
    assert "b" + "!" == "b!";
  }

  /** At batch size 2 with a rate-limit error on "a", the strides 0, 2, 4
      take [a, b], then [c] and [e] at the halved size 1: "d" is skipped. */
  lemma ExampleStrides()
    ensures Strides(["a", "b", "c", "d", "e"], "en", RateLimitedAtA, 2, 0, 2) == Batched(["a", "b!", "c!", "e!"], 1)
  {
    var texts := ["a", "b", "c", "d", "e"];
    ExampleFirstBatch();
    BatchCallsOne("c", "en", RateLimitedAtA, 1);
    assert "c" + "!" == "c!";
    BatchCallsOne("e", "en", RateLimitedAtA, 1);
    assert "e" + "!" == "e!";
    assert texts[0..2] == ["a", "b"] && texts[2..3] == ["c"] && texts[4..5] == ["e"];
    assert Strides(texts, "en", RateLimitedAtA, 2, 6, 1) == Batched([], 1);
    assert Strides(texts, "en", RateLimitedAtA, 2, 4, 1) == Batched(["e!"], 1);
    assert Strides(texts, "en", RateLimitedAtA, 2, 2, 1) == Batched(["c!", "e!"], 1);
  }

  /** Writing the four translations back to the five empty slots. */
  lemma ExampleWrites()
    ensures WriteAll(["", "", "", "", ""], [0, 1, 2, 3, 4], ["a", "b!", "c!", "e!"]) == Some(["a", "b!", "c!", "e!", ""])
  {
    var empty := ["", "", "", "", ""];
    var s1: seq<int> := [0];
    var s2 := s1 + [1];
    var s3 := s2 + [2];
    var s4 := s3 + [3];
    var v1 := ["a"];
    var v2 := v1 + ["b!"];
    var v3 := v2 + ["c!"];
    var v4 := v3 + ["e!"];
    assert s1[..0] == [] && s2[..1] == s1 && s3[..2] == s2 && s4[..3] == s3;
    assert v1[..0] == [] && v2[..1] == v1 && v3[..2] == v2 && v4[..3] == v3;
    assert Min(1, 1) == 1 && Min(2, 2) == 2 && Min(3, 3) == 3 && Min(4, 4) == 4 && Min(5, 4) == 4;
    assert Slot(0, 5) == Some(0) && Slot(1, 5) == Some(1) && Slot(2, 5) == Some(2) && Slot(3, 5) == Some(3);
    assert WriteAll(empty, [], []) == Some(empty);
    assert empty[0 := "a"] == ["a", "", "", "", ""];
    assert WriteAll(empty, s1, v1) == Some(["a", "", "", "", ""]);
    assert ["a", "", "", "", ""][1 := "b!"] == ["a", "b!", "", "", ""];
    assert WriteAll(empty, s2, v2) == Some(["a", "b!", "", "", ""]);
    assert ["a", "b!", "", "", ""][2 := "c!"] == ["a", "b!", "c!", "", ""];
    assert WriteAll(empty, s3, v3) == Some(["a", "b!", "c!", "", ""]);
    assert ["a", "b!", "c!", "", ""][3 := "e!"] == ["a", "b!", "c!", "e!", ""];
    assert WriteAll(empty, s4, v4) == Some(["a", "b!", "c!", "e!", ""]);
    var s5 := s4 + [4];
    assert s5[..3] == s3 && s5[3] == 3 && v4[3] == "e!";
    assert WriteAll(empty, s5, v4) == Some(["a", "b!", "c!", "e!", ""]);
    assert s5 == [0, 1, 2, 3, 4] && v4 == ["a", "b!", "c!", "e!"];
  }

  /** Five English texts to Vietnamese at batch size 2, the first drawing a
      rate-limit error: slot 3 receives the translation of text 4, slot 4
      stays empty, and text 3 is never translated. */
  lemma RateLimitShiftsTranslations()
    ensures BatchTranslated(ExampleItems(), "vi", RateLimitedAtA, 2) == Some(["a", "b!", "c!", "e!", ""])
  {
    var items := ExampleItems();
    var texts := ["a", "b", "c", "d", "e"];
    var indices := [0, 1, 2, 3, 4];
    ExampleGroups();
    ExampleStrides();
    ExampleWrites();
    var empty := Start(items, 2).results;
    assert empty == ["", "", "", "", ""];
    var grp := LangGroup("en", texts, indices);
    assert GroupStep(grp, "vi", RateLimitedAtA, Start(items, 2)) == Some(Progress(["a", "b!", "c!", "e!", ""], 1));
    assert [grp][..0] == [];
  }

  // ---------------------------------------------------------------------
  // Placement when no call is rate limited.

  /** What batch_translate_text stores for one item when no call is rate
      limited: the text itself when it is in the target language, otherwise
      its translation, or the text again when the translator raises. */
  function Stored(it: Item, target: string, translate: (string, string) -> Outcome): string {
    if it.lang == target then it.text else Result(translate(it.lang, it.text), it.text)
  }

  /** No item outside the target language draws a rate-limit error. */
  predicate NoRateLimit(items: seq<Item>, target: string, translate: (string, string) -> Outcome) {
    forall j :: 0 <= j < |items| && items[j].lang != target ==> !RateLimited(translate(items[j].lang, items[j].text))
  }

  /** No two items write the same slot. */
  predicate DistinctSlots(items: seq<Item>) {
    forall i, j :: 0 <= i < j < |items| ==> Slot(items[i].origIdx, |items|) != Slot(items[j].origIdx, |items|)
  }

  /** Every slot of `res` is still "" or holds what some item of `done`
      with that index stores. */
  ghost predicate Witnessed(res: seq<string>, items: seq<Item>, done: set<nat>,
                            target: string, translate: (string, string) -> Outcome) {
    forall p :: 0 <= p < |res| ==>
      (res[p] == "" || exists j :: j in done && j < |items| && Slot(items[j].origIdx, |items|) == Some(p) && res[p] == Stored(items[j], target, translate))
  }

  /** With distinct slots, every item of `done` has its stored text in its slot. */
  ghost predicate Placed(res: seq<string>, items: seq<Item>, done: set<nat>,
                         target: string, translate: (string, string) -> Outcome) {
    DistinctSlots(items) ==> forall j :: j in done && j < |items| ==>
      Slot(items[j].origIdx, |items|).Some? && Slot(items[j].origIdx, |items|).value < |res| &&
      res[Slot(items[j].origIdx, |items|).value] == Stored(items[j], target, translate)
  }

  /** Writing item j's stored text into its slot keeps both predicates. */
  lemma PlaceStep(res: seq<string>, items: seq<Item>, done: set<nat>, j: nat,
                  target: string, translate: (string, string) -> Outcome)
    requires |res| == |items| && j < |items| && j !in done
    requires Slot(items[j].origIdx, |items|).Some?
    requires forall i :: i in done ==> i < |items| && Slot(items[i].origIdx, |items|).Some?
    requires Witnessed(res, items, done, target, translate) && Placed(res, items, done, target, translate)
    ensures var res' := res[Slot(items[j].origIdx, |items|).value := Stored(items[j], target, translate)];
      Witnessed(res', items, done + {j}, target, translate) && Placed(res', items, done + {j}, target, translate)
  {
    var p := Slot(items[j].origIdx, |items|).value;
    var res' := res[p := Stored(items[j], target, translate)];
    forall q | 0 <= q < |res'|
      ensures res'[q] == "" || exists i :: i in done + {j} && i < |items| && Slot(items[i].origIdx, |items|) == Some(q) && res'[q] == Stored(items[i], target, translate)
    {
      if q == p {
        assert Slot(items[j].origIdx, |items|) == Some(q);
      } else {
        assert res'[q] == res[q];
      }
    }
    if DistinctSlots(items) {
      forall i | i in done + {j} && i < |items|
        ensures res'[Slot(items[i].origIdx, |items|).value] == Stored(items[i], target, translate)
      {
        if i != j {
          if i < j {
            assert Slot(items[i].origIdx, |items|) != Slot(items[j].origIdx, |items|);
          } else {
            assert Slot(items[j].origIdx, |items|) != Slot(items[i].origIdx, |items|);
          }
        }
      }
    }
  }

  /** A run of writes raises exactly when one of its slots is outside the list. */
  lemma {:induction false} WriteAllNoneIff(res: seq<string>, slots: seq<int>, vals: seq<string>)
    requires |slots| == |vals|
    ensures WriteAll(res, slots, vals).None? <==> exists k :: 0 <= k < |slots| && Slot(slots[k], |res|).None?
  {
    if slots != [] {
      var init := slots[..|slots| - 1];
      WriteAllNoneIff(res, init, vals[..|vals| - 1]);
      if exists k :: 0 <= k < |init| && Slot(init[k], |res|).None? {
        var k :| 0 <= k < |init| && Slot(init[k], |res|).None?;
        assert slots[k] == init[k];
      }
      if exists k :: 0 <= k < |slots| && Slot(slots[k], |res|).None? {
        var k :| 0 <= k < |slots| && Slot(slots[k], |res|).None?;
        if k < |init| {
          assert init[k] == slots[k];
        }
      }
    }
  }

  function Elements(s: seq<nat>): set<nat> {
    set x | x in s
  }

  /** The last element of an increasing sequence is new, and completes its elements. */
  lemma ElementsSnoc(group: seq<nat>)
    requires group != []
    requires forall a, b :: 0 <= a < b < |group| ==> group[a] < group[b]
    ensures group[|group| - 1] !in Elements(group[..|group| - 1])
    ensures Elements(group) == Elements(group[..|group| - 1]) + {group[|group| - 1]}
  {
    var n := |group| - 1;
    var init := group[..n];
    forall a | 0 <= a < n
      ensures init[a] != group[n]
    {
      assert group[a] < group[n];
    }
    assert group == init + [group[n]];
  }

  /** The group's stored texts. */
  function StoredOf(items: seq<Item>, group: seq<nat>, target: string, translate: (string, string) -> Outcome): seq<string>
    requires forall k :: 0 <= k < |group| ==> group[k] < |items|
  {
    seq(|group|, k requires 0 <= k < |group| => Stored(items[group[k]], target, translate))
  }

  /** Writing the stored texts of a fresh group, in order, keeps both
      predicates for `done` grown by the group. */
  lemma {:induction false} WritePlaced(res: seq<string>, items: seq<Item>, group: seq<nat>, slots: seq<int>, vals: seq<string>,
                                       done: set<nat>, target: string, translate: (string, string) -> Outcome)
    requires |res| == |items| && |slots| == |group| && |vals| == |group|
    requires forall m :: 0 <= m < |group| ==> group[m] < |items| && group[m] !in done
    requires forall m :: 0 <= m < |group| ==> slots[m] == items[group[m]].origIdx && vals[m] == Stored(items[group[m]], target, translate)
    requires forall a, b :: 0 <= a < b < |group| ==> group[a] < group[b]
    requires forall j :: j in done ==> j < |items| && Slot(items[j].origIdx, |items|).Some?
    requires Witnessed(res, items, done, target, translate) && Placed(res, items, done, target, translate)
    ensures WriteAll(res, slots, vals).Some? ==>
      (forall j :: j in done + Elements(group) ==> j < |items| && Slot(items[j].origIdx, |items|).Some?) &&
      Witnessed(WriteAll(res, slots, vals).value, items, done + Elements(group), target, translate) &&
      Placed(WriteAll(res, slots, vals).value, items, done + Elements(group), target, translate)
  {
    if group == [] {
      assert Elements(group) == {};
    } else {
      var n := |group| - 1;
      var init := group[..n];
      WritePlaced(res, items, init, slots[..n], vals[..n], done, target, translate);
      var before := WriteAll(res, slots[..n], vals[..n]);
      if before.Some? && Slot(slots[n], |res|).Some? {
        var j := group[n];
        ElementsSnoc(group);
        PlaceStep(before.value, items, done + Elements(init), j, target, translate);
      }
    }
  }

  /** The items whose language is among the first g groups. */
  ghost function DoneSet(items: seq<Item>, g: nat): set<nat>
    requires g <= |Langs(items)|
  {
    set j: nat | j < |items| && items[j].lang in Langs(items)[..g]
  }

  /** A group's texts as stored when no call is rate limited: copied in the
      target language, otherwise translated or kept. */
  function GroupStored(grp: LangGroup, target: string, translate: (string, string) -> Outcome): seq<string> {
    if grp.lang == target then grp.texts else Results(grp.texts, grp.lang, translate)
  }

  /** Without rate-limit errors a group writes its stored texts to its
      indices and leaves the batch size as it is. */
  lemma GroupStepUnlimited(grp: LangGroup, target: string, translate: (string, string) -> Outcome, st: Progress)
    requires 1 <= st.size
    requires grp.lang != target ==> CallsUnlimited(grp.texts, grp.lang, translate)
    ensures var w := WriteAll(st.results, grp.indices, GroupStored(grp, target, translate));
      (w.None? ==> GroupStep(grp, target, translate, st).None?) &&
      (w.Some? ==> GroupStep(grp, target, translate, st) == Some(Progress(w.value, st.size)))
  {
    if grp.lang != target {
      StridesUnlimited(grp.texts, grp.lang, translate, st.size, 0);
      assert grp.texts[0..] == grp.texts;
    }
  }

  /** The results after `groups` when every group writes its stored texts;
      None once a write raises. */
  function StoredRun(groups: seq<LangGroup>, target: string, translate: (string, string) -> Outcome,
                     res: seq<string>): Option<seq<string>>
  {
    if groups == [] then Some(res)
    else
      match StoredRun(groups[..|groups| - 1], target, translate, res)
      case None => None
      case Some(r) => WriteAll(r, groups[|groups| - 1].indices, GroupStored(groups[|groups| - 1], target, translate))
  }

  /** No call of a group outside the target language is rate limited. */
  predicate GroupsUnlimited(groups: seq<LangGroup>, target: string, translate: (string, string) -> Outcome) {
    forall g :: 0 <= g < |groups| && groups[g].lang != target ==> CallsUnlimited(groups[g].texts, groups[g].lang, translate)
  }

  /** Without rate-limit errors the run over the groups is that run, and the
      batch size never changes. */
  lemma {:induction false} RunUnlimited(groups: seq<LangGroup>, target: string, translate: (string, string) -> Outcome, st: Progress)
    requires 1 <= st.size
    requires GroupsUnlimited(groups, target, translate)
    ensures StoredRun(groups, target, translate, st.results).None? ==> Run(groups, target, translate, st).None?
    ensures StoredRun(groups, target, translate, st.results).Some? ==>
      Run(groups, target, translate, st) == Some(Progress(StoredRun(groups, target, translate, st.results).value, st.size))
  {
    if groups != [] {
      var init := groups[..|groups| - 1];
      assert GroupsUnlimited(init, target, translate) by {
        forall g | 0 <= g < |init| && init[g].lang != target
          ensures CallsUnlimited(init[g].texts, init[g].lang, translate)
        {
          assert init[g] == groups[g];
        }
      }
      RunUnlimited(init, target, translate, st);
      var prev := StoredRun(init, target, translate, st.results);
      if prev.Some? {
        GroupStepUnlimited(groups[|groups| - 1], target, translate, Progress(prev.value, st.size));
      }
    }
  }

  /** Entry g of `lang_groups` holds the texts and indices of the items in
      the g-th language, and its stored texts are theirs. */
  lemma LangGroupsAt(items: seq<Item>, target: string, translate: (string, string) -> Outcome, g: nat)
    requires g < |Langs(items)|
    ensures var group := Group(items, Langs(items)[g]);
      LangGroups(items)[g].indices == IndicesOf(items, group) &&
      GroupStored(LangGroups(items)[g], target, translate) == StoredOf(items, group, target, translate)
  {
    var l := Langs(items)[g];
    var group := Group(items, l);
    var grp := LangGroups(items)[g];
    assert grp == GroupOf(items, l);
    var a := GroupStored(grp, target, translate);
    var b := StoredOf(items, group, target, translate);
    forall k | 0 <= k < |group|
      ensures a[k] == b[k]
    {
      assert items[group[k]].lang == l;
    }
  }

  /** Writing the stored texts of the g-th group raises exactly when one of
      its items has its index outside the list. */
  lemma WriteGroupRaises(items: seq<Item>, target: string, translate: (string, string) -> Outcome, g: nat, res: seq<string>)
    requires g < |Langs(items)| && |res| == |items|
    ensures var group := Group(items, Langs(items)[g]);
      WriteAll(res, IndicesOf(items, group), StoredOf(items, group, target, translate)).None? <==>
      exists j :: 0 <= j < |items| && items[j].lang == Langs(items)[g] && Slot(items[j].origIdx, |items|).None?
  {
    var l := Langs(items)[g];
    var group := Group(items, l);
    var slots := IndicesOf(items, group);
    WriteAllNoneIff(res, slots, StoredOf(items, group, target, translate));
    if exists j :: 0 <= j < |items| && items[j].lang == l && Slot(items[j].origIdx, |items|).None? {
      var j :| 0 <= j < |items| && items[j].lang == l && Slot(items[j].origIdx, |items|).None?;
      assert j in group;
      var k :| 0 <= k < |group| && group[k] == j;
      assert Slot(slots[k], |res|).None?;
    }
  }

  /** When that write succeeds, it extends both predicates to the items of
      the group's language. */
  lemma WriteGroupPlaced(items: seq<Item>, target: string, translate: (string, string) -> Outcome, g: nat, res: seq<string>)
    requires g < |Langs(items)| && |res| == |items|
    requires forall j :: j in DoneSet(items, g) ==> j < |items| && Slot(items[j].origIdx, |items|).Some?
    requires Witnessed(res, items, DoneSet(items, g), target, translate)
    requires Placed(res, items, DoneSet(items, g), target, translate)
    ensures var group := Group(items, Langs(items)[g]);
      var w := WriteAll(res, IndicesOf(items, group), StoredOf(items, group, target, translate));
      w.Some? ==>
        (forall j :: j in DoneSet(items, g + 1) ==> j < |items| && Slot(items[j].origIdx, |items|).Some?) &&
        Witnessed(w.value, items, DoneSet(items, g + 1), target, translate) &&
        Placed(w.value, items, DoneSet(items, g + 1), target, translate)
  {
    var langs := Langs(items);
    var l := langs[g];
    var group := Group(items, l);
    LangsDistinct(items, g);
    var done := DoneSet(items, g);
    assert forall m :: 0 <= m < |group| ==> group[m] < |items| && group[m] !in done;
    WritePlaced(res, items, group, IndicesOf(items, group), StoredOf(items, group, target, translate), done, target, translate);
    DoneSetStep(items, g);
  }

  /** The next group adds its items to `done`. */
  lemma DoneSetStep(items: seq<Item>, g: nat)
    requires g < |Langs(items)|
    ensures DoneSet(items, g + 1) == DoneSet(items, g) + Elements(Group(items, Langs(items)[g]))
  {
    var langs := Langs(items);
    assert langs[..g + 1] == langs[..g] + [langs[g]];
  }

  /** The items' languages are listed, and no call of theirs is rate
      limited outside the target language, so no call of a group is. */
  lemma NoRateLimitGroups(items: seq<Item>, target: string, translate: (string, string) -> Outcome)
    requires NoRateLimit(items, target, translate)
    ensures GroupsUnlimited(LangGroups(items), target, translate)
  {
    var groups := LangGroups(items);
    forall g | 0 <= g < |groups| && groups[g].lang != target
      ensures CallsUnlimited(groups[g].texts, groups[g].lang, translate)
    {
      var l := Langs(items)[g];
      var group := Group(items, l);
      assert groups[g] == GroupOf(items, l);
      forall k | 0 <= k < |groups[g].texts|
        ensures !RateLimited(translate(groups[g].lang, groups[g].texts[k]))
      {
        assert items[group[k]].lang == l;
      }
    }
  }

  /** The stored writes of the first g groups raise exactly when an item of
      those groups has its index outside the list. */
  lemma {:induction false} StoredRunRaises(items: seq<Item>, target: string, translate: (string, string) -> Outcome, g: nat)
    requires g <= |Langs(items)|
    ensures StoredRun(LangGroups(items)[..g], target, translate, Start(items, 1).results).None? <==>
      exists j :: 0 <= j < |items| && items[j].lang in Langs(items)[..g] && Slot(items[j].origIdx, |items|).None?
  {
    if g > 0 {
      var groups := LangGroups(items);
      StoredRunRaises(items, target, translate, g - 1);
      assert groups[..g][..g - 1] == groups[..g - 1];
      var prev := StoredRun(groups[..g - 1], target, translate, Start(items, 1).results);
      if prev.Some? {
        StoredRunLength(groups[..g - 1], target, translate, Start(items, 1).results);
        LangGroupsAt(items, target, translate, g - 1);
        WriteGroupRaises(items, target, translate, g - 1, prev.value);
      }
      BadSlotSplit(items, g);
    }
  }

  lemma {:induction false} StoredRunLength(groups: seq<LangGroup>, target: string, translate: (string, string) -> Outcome, res: seq<string>)
    ensures StoredRun(groups, target, translate, res).Some? ==> |StoredRun(groups, target, translate, res).value| == |res|
  {
    if groups != [] {
      StoredRunLength(groups[..|groups| - 1], target, translate, res);
    }
  }

  /** When the stored writes of the first g groups succeed, every slot is ""
      or stored by one of their items, and with distinct slots each of them
      sits in its slot. */
  lemma {:induction false} StoredRunPlaced(items: seq<Item>, target: string, translate: (string, string) -> Outcome, g: nat)
    requires g <= |Langs(items)|
    ensures var w := StoredRun(LangGroups(items)[..g], target, translate, Start(items, 1).results);
      w.Some? ==>
        (forall j :: j in DoneSet(items, g) ==> j < |items| && Slot(items[j].origIdx, |items|).Some?) &&
        Witnessed(w.value, items, DoneSet(items, g), target, translate) &&
        Placed(w.value, items, DoneSet(items, g), target, translate)
  {
    if g == 0 {
      assert DoneSet(items, 0) == {};
    } else {
      var groups := LangGroups(items);
      StoredRunPlaced(items, target, translate, g - 1);
      assert groups[..g][..g - 1] == groups[..g - 1];
      var prev := StoredRun(groups[..g - 1], target, translate, Start(items, 1).results);
      if prev.Some? {
        StoredRunLength(groups[..g - 1], target, translate, Start(items, 1).results);
        LangGroupsAt(items, target, translate, g - 1);
        WriteGroupPlaced(items, target, translate, g - 1, prev.value);
      }
    }
  }

  /** An item of the first g groups with its index outside the list is one
      of the first g - 1 groups or of group g - 1. */
  lemma BadSlotSplit(items: seq<Item>, g: nat)
    requires 0 < g <= |Langs(items)|
    ensures (exists j :: 0 <= j < |items| && items[j].lang in Langs(items)[..g] && Slot(items[j].origIdx, |items|).None?) <==>
      (exists j :: 0 <= j < |items| && items[j].lang in Langs(items)[..g - 1] && Slot(items[j].origIdx, |items|).None?) ||
      (exists j :: 0 <= j < |items| && items[j].lang == Langs(items)[g - 1] && Slot(items[j].origIdx, |items|).None?)
  {
    var langs := Langs(items);
    assert langs[..g] == langs[..g - 1] + [langs[g - 1]];
  }

  /** Each slot of the result is "" or what some item with that index
      stores. */
  predicate EachSlotFromAnItem(res: seq<string>, items: seq<Item>,
                              target: string, translate: (string, string) -> Outcome) {
    forall p :: 0 <= p < |res| ==>
      (res[p] == "" || exists j :: 0 <= j < |items| && Slot(items[j].origIdx, |items|) == Some(p) && res[p] == Stored(items[j], target, translate))
  }

  /** Each item's slot exists and holds what it stores. */
  predicate EachItemInItsSlot(res: seq<string>, items: seq<Item>,
                             target: string, translate: (string, string) -> Outcome) {
    forall j :: 0 <= j < |items| ==>
      Slot(items[j].origIdx, |items|).Some? && Slot(items[j].origIdx, |items|).value < |res| &&
      res[Slot(items[j].origIdx, |items|).value] == Stored(items[j], target, translate)
  }

  /** batch_translate_text when no call is rate limited: it raises (the
      IndexError) exactly when some item's index is outside the result list;
      otherwise each slot holds "" or what an item with that index stores,
      and when no two items share a slot, each item's slot holds what it
      stores: its own text for items in the target language. */
  lemma NoRateLimitPlacement(items: seq<Item>, target: string, translate: (string, string) -> Outcome, batchSize: int)
    requires 1 <= batchSize
    requires NoRateLimit(items, target, translate)
    ensures BatchTranslated(items, target, translate, batchSize).None? <==>
      exists j :: 0 <= j < |items| && Slot(items[j].origIdx, |items|).None?
    ensures match BatchTranslated(items, target, translate, batchSize)
      case None => true
      case Some(res) =>
        |res| == |items| && EachSlotFromAnItem(res, items, target, translate) &&
        (DistinctSlots(items) ==> EachItemInItsSlot(res, items, target, translate))
  {
    var langs := Langs(items);
    var groups := LangGroups(items);
    NoRateLimitGroups(items, target, translate);
    RunUnlimited(groups, target, translate, Start(items, batchSize));
    StoredRunRaises(items, target, translate, |langs|);
    StoredRunPlaced(items, target, translate, |langs|);
    StoredRunLength(groups, target, translate, Start(items, 1).results);
    assert groups[..|langs|] == groups;
    assert langs[..|langs|] == langs;
    forall j | 0 <= j < |items|
      ensures items[j].lang in langs && j in DoneSet(items, |langs|)
    {
      LangsCover(items, j);
    }
  }

  /** Every item's language is listed. */
  lemma {:induction false} LangsCover(items: seq<Item>, j: nat)
    requires j < |items|
    ensures items[j].lang in Langs(items)
  {
    var init := items[..|items| - 1];
    if j < |init| {
      LangsCover(init, j);
    }
  }

  lemma LangsDistinct(items: seq<Item>, g: nat)
    requires g < |Langs(items)|
    ensures Langs(items)[g] !in Langs(items)[..g]
  {
    if items != [] {
      var init := items[..|items| - 1];
      if g < |Langs(init)| {
        LangsDistinct(init, g);
        assert Langs(items)[..g] == Langs(init)[..g];
      }
    }
  }
}
