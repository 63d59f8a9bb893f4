/** The XML variant: CPU readings are the `util` values of the `Item` nodes
    whose `component` is the CPU health component. */
module XmlParser {
  import opened Wrappers
  import opened FilterMaps
  import opened Comparator

  /** A `Data` element: its `name` attribute and its text (`None` when the
      element has no text). */
  datatype Data = Data(name: string, text: Option<string>)

  /** An `Item` node, given by the `Data` elements below it in document order. */
  datatype Item = Item(data: seq<Data>)

  /** A report file as the XML parser sees it: its path and its `Item` nodes
      in document order. */
  datatype XmlFile = XmlFile(path: Path, items: seq<Item>)

  /** The label of the component whose utilisation is a CPU reading. */
  const CpuComponent: string := "SysHealthCpuComponent"

  /** ElementTree's `find(".//Data[@name='...']")`: the position of the first
      `Data` with that name, or `None`. */
  function Find(data: seq<Data>, name: string): (r: Option<nat>)
    ensures r.None? ==> forall j :: 0 <= j < |data| ==> data[j].name != name
    ensures r.Some? ==> r.value < |data| && data[r.value].name == name &&
                        forall j :: 0 <= j < r.value ==> data[j].name != name
  {
    if |data| == 0 then None
    else if data[0].name == name then Some(0)
    else match Find(data[1..], name)
      case None => None
      case Some(j) => Some(j + 1)
  }

  /** The text of the first `Data` named `name`, if there is one and it has text. */
  function FieldText(item: Item, name: string): Option<string>
  {
    match Find(item.data, name)
    case None => None
    case Some(j) => item.data[j].text
  }

  /** The reading one `Item` contributes: only a CPU component whose `util`
      text is present, non-empty and parses. */
  function ItemReading(item: Item, parse: NumberParser): Option<real>
  {
    if FieldText(item, "component") != Some(CpuComponent) then None
    else match FieldText(item, "util")
      case None => None
      case Some(t) => if t == "" then None else parse(t)
  }

  /** `ItemReading` as a function of the item alone. */
  function Reader(parse: NumberParser): Item -> Option<real>
  {
    item => ItemReading(item, parse)
  }

  /** The CPU readings of one document. */
  function Extract(items: seq<Item>, parse: NumberParser): seq<real>
  {
    FilterMap(items, Reader(parse))
  }

  /** An item yields a reading exactly when its first `component` Data has the
      text `SysHealthCpuComponent` and its first `util` Data has non-empty
      text that parses; the reading is the parsed value. */
  lemma ItemReadingSpec(item: Item, parse: NumberParser)
    ensures ItemReading(item, parse).Some? <==>
              FieldText(item, "component") == Some(CpuComponent) &&
              FieldText(item, "util").Some? && FieldText(item, "util").value != "" &&
              parse(FieldText(item, "util").value).Some?
    ensures ItemReading(item, parse).Some? ==>
              ItemReading(item, parse) == parse(FieldText(item, "util").value)
  {
  }

  /** The readings of a document come from distinct items, in document order,
      at most one per item; an item is skipped exactly when it is not the CPU
      component or its `util` text is missing, empty or unparseable. */
  lemma {:induction false} ExtractSpec(items: seq<Item>, parse: NumberParser)
    ensures |Extract(items, parse)| == |Kept(items, Reader(parse))| <= |items|
    ensures forall m :: 0 <= m < |Kept(items, Reader(parse))| ==>
              var i := Kept(items, Reader(parse))[m];
              i < |items| && FieldText(items[i], "component") == Some(CpuComponent) &&
              FieldText(items[i], "util").Some? && FieldText(items[i], "util").value != "" &&
              parse(FieldText(items[i], "util").value) == Some(Extract(items, parse)[m])
    ensures forall m, m' :: 0 <= m < m' < |Kept(items, Reader(parse))| ==>
              Kept(items, Reader(parse))[m] < Kept(items, Reader(parse))[m']
    ensures forall i :: 0 <= i < |items| ==>
              (ItemReading(items[i], parse).Some? <==> i in Kept(items, Reader(parse)))
  {
    FilterMapKept(items, Reader(parse));
    forall m | 0 <= m < |Kept(items, Reader(parse))|
      ensures var i := Kept(items, Reader(parse))[m];
              i < |items| && FieldText(items[i], "component") == Some(CpuComponent) &&
              FieldText(items[i], "util").Some? && FieldText(items[i], "util").value != "" &&
              parse(FieldText(items[i], "util").value) == Some(Extract(items, parse)[m])
    {
      var i := Kept(items, Reader(parse))[m];
      ItemReadingSpec(items[i], parse);
    }
  }

  /** An item that is not the CPU component contributes nothing, and the
      items after it are still processed. */
  lemma SkipsOtherComponents(before: seq<Item>, item: Item, after: seq<Item>, parse: NumberParser)
    requires FieldText(item, "component") != Some(CpuComponent)
    ensures Extract(before + [item] + after, parse) == Extract(before, parse) + Extract(after, parse)
  {
    var f := Reader(parse);
    assert FilterMap(before + [item], f) == FilterMap(before, f) by {
      FilterMapAppend(before, [item], f);
      assert f(item) == None;
      assert [item][..0] == [];
      assert FilterMap([item], f) == [];
    }
    FilterMapAppend(before + [item], after, f);
  }

  /** The readings of every report file, paired with its path. */
  function FileReports(files: seq<XmlFile>, parse: NumberParser): (rs: seq<Report>)
    ensures |rs| == |files|
    ensures forall k :: 0 <= k < |files| ==>
              rs[k] == Report(files[k].path, Extract(files[k].items, parse))
  {
    seq(|files|, k requires 0 <= k < |files| => Report(files[k].path, Extract(files[k].items, parse)))
  }

  /** `extract_cpu_usage`: walks the items and appends each CPU reading found. */
  method ExtractCpuUsage(items: seq<Item>, parse: NumberParser) returns (cpuData: seq<real>)
    ensures cpuData == Extract(items, parse)
  {
    cpuData := [];
    var i := 0;
    while i < |items|
      invariant 0 <= i <= |items|
      invariant cpuData == Extract(items[..i], parse)
    {
      var item := items[i];
      var component := Find(item.data, "component");
      if component.Some? && item.data[component.value].text == Some(CpuComponent) {
        var utilization := Find(item.data, "util");
        if utilization.Some? && item.data[utilization.value].text.Some? &&
           item.data[utilization.value].text.value != "" {
          var cpuUsage := parse(item.data[utilization.value].text.value);
          if cpuUsage.Some? {
            cpuData := cpuData + [cpuUsage.value];
          }
        }
      }
      assert items[..i + 1][..i] == items[..i];
      i := i + 1;
    }
    assert items[..i] == items;
  }

  /** `compare_reports`: extracts each file in turn, compares it with the
      previous file's readings when those are non-empty, and then makes it
      the previous file. */
  method CompareReports(files: seq<XmlFile>, parse: NumberParser) returns (results: seq<Finding>)
    ensures results == Chain(FileReports(files, parse))
    ensures |files| < 2 ==> results == []
  {
    ghost var rs := FileReports(files, parse);
    var previousCpuData: Option<seq<real>> := None;
    results := [];
    var k := 0;
    while k < |files|
      invariant 0 <= k <= |files|
      invariant previousCpuData == if k == 0 then None else Some(rs[k - 1].readings)
      invariant results == Chain(rs[..k])
    {
      var cpuData := ExtractCpuUsage(files[k].items, parse);
      assert rs[k] == Report(files[k].path, cpuData);
      ChainStep(rs, k);
      if previousCpuData.Some? && |previousCpuData.value| > 0 {
        var found := ComparePair(previousCpuData.value, cpuData, files[k].path);
        results := results + found;
      }
      previousCpuData := Some(cpuData);
      k := k + 1;
    }
    assert rs[..k] == rs;
    assert |files| < 2 ==> |rs| < 2;
  }
}
