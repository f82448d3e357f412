/** The entry point of the plugin: its parameters, and the files it writes. */
module Plugin {
  import opened Strings
  import opened Generated
  import opened Emission
  import opened Generator

  const KEY := "services_namespace"

  datatype Parameters =
    | Accepted(services_namespace: string)
    | Unknown(parameter: string)
      /** `param[1]` of a parameter without `=`: past the end of the vector. */
    | NoValue

  /** From `ns`, what the parameters say; a later one overrides. */
  function Read(parameters: seq<string>, ns: string): Parameters {
    if parameters == [] then Accepted(ns)
    else
      var param := Split(parameters[0], "=");
      if param[0] != KEY then Unknown(parameters[0])
      else if |param| == 1 then NoValue
      else Read(parameters[1..], param[1])
  }

  datatype Output = Output(name: string, items: seq<Item>)

  datatype Result = Generic | Bad(error: string) | Undefined | Written(header: Output, source: Output)

  /** The parameters in order; the first that is not understood ends the run. */
  method ReadParameters(parameter: string) returns (r: Parameters)
    ensures r == if parameter == "" then Accepted("") else Read(Split(parameter, ","), "")
  {
    hide Split;
    var ns := "";
    if parameter != "" {
      var list := Tokenize(parameter, ",");
      for i := 0 to |list|
        invariant Read(list[i..], ns) == Read(list, "")
      {
        assert list[i..][1..] == list[i + 1..];
        var param := Tokenize(list[i], "=");
        if param[0] == KEY {
          if |param| == 1 {
            return NoValue;
          }
          ns := param[1];
        } else {
          return Unknown(list[i]);
        }
      }
    }
    return Accepted(ns);
  }

  method Generate(file: File, parameter: string) returns (r: Result)
    requires file.Valid()
    ensures file.genericServices ==> r == Generic
    ensures !file.genericServices ==>
              match (if parameter == "" then Accepted("") else Read(Split(parameter, ","), ""))
              case Unknown(p) => r == Bad("Unknown parameter: " + p)
              case NoValue => r == Undefined
              case Accepted(ns) =>
                r == Written(Output(Stripped(file.name) + ".grpc_cb.pb.h", HeaderItems(file, ns)),
                             Output(Stripped(file.name) + ".grpc_cb.pb.cc", SourceItems(file)))
  {
    hide Each, Split, Read, Reversed, Stripped, HeaderServicesItems, DescriptorItems, Parts;
    if file.genericServices {
      return Generic;
    }
    var parameters := ReadParameters(parameter);
    if parameters.Unknown? {
      return Bad("Unknown parameter: " + parameters.parameter);
    }
    if parameters.NoValue? {
      return Undefined;
    }
    var ns := parameters.services_namespace;
    var name := StripProto(file.name);

    var h0 := GetHeaderPrologue(file);
    var h1 := OpenPackage(file);
    var h2 := GetHeaderServices(file, ns);
    var h3 := GetHeaderEpilogue(file);
    var header := Output(name + ".grpc_cb.pb.h", h0 + h1 + h2 + h3);

    var s0 := OpenPackage(file);
    var s1 := GetSourceDescriptors(file);
    var s2 := GetSourceServices(file);
    var s3 := GetSourceEpilogue(file);
    var source := Output(name + ".grpc_cb.pb.cc", s0 + s1 + s2 + s3);
    return Written(header, source);
  }

  // ---------------------------------------------------- which parameters do

  /** The key, an equals sign, and any value. */
  predicate IsSetting(p: string) {
    "services_namespace=" <= p
  }

  lemma KeyOfSetting()
    ensures KEY + "=" == "services_namespace=" && |KEY| == 18
  {
  }

  /** The text after the key, up to another `=`. */
  function SettingValue(p: string): string
    requires IsSetting(p)
  {
    Split(p[19..], "=")[0]
  }

  lemma KeyHasNoEquals()
    ensures '=' !in KEY
  {
  }

  lemma SettingSplits(p: string)
    requires IsSetting(p)
    ensures var param := Split(p, "=");
            |param| > 1 && param[0] == KEY && param[1] == SettingValue(p)
  {
    hide Split, KEY;
    KeyOfSetting();
    KeyHasNoEquals();
    var t := p[19..];
    EqualsFirst(t);
    SplitPiece(KEY, '=', "=" + t);
    assert p == KEY + "=" + t;
    assert KEY + "=" + t == KEY + ("=" + t);
    assert KEY + [] == KEY;
  }

  lemma EqualsFirst(t: string)
    ensures Split("=" + t, "=") == [[]] + Split(t, "=")
  {
    assert ("=" + t)[1..] == t;
  }

  lemma OtherSplits(p: string)
    requires !IsSetting(p)
    ensures var param := Split(p, "=");
            (param[0] == KEY <==> p == KEY) && (p == KEY ==> |param| == 1)
  {
    hide Split, KEY;
    KeyHasNoEquals();
    SplitSolid(KEY, '=');
    var param := Split(p, "=");
    JoinSplit(p, '=');
    if |param| > 1 && param[0] == KEY {
      KeyThenMore(p);
    }
  }

  lemma KeyThenMore(p: string)
    requires |Split(p, "=")| > 1 && Split(p, "=")[0] == KEY
    ensures IsSetting(p)
  {
    hide Split, KEY;
    KeyOfSetting();
    JoinSplit(p, '=');
    assert p == KEY + "=" + Join(Split(p, "=")[1..], "=");
  }

  /** All parameters are understood exactly if each is a setting, and the last one counts. */
  lemma {:induction false} ReadAccepts(parameters: seq<string>, ns: string)
    ensures Read(parameters, ns).Accepted? <==> forall p | p in parameters :: IsSetting(p)
    ensures Read(parameters, ns).Accepted? ==>
              Read(parameters, ns).services_namespace
              == if parameters == [] then ns else SettingValue(parameters[|parameters| - 1])
  {
    hide Split, IsSetting, KEY, SettingValue;
    if parameters != [] {
      var p := parameters[0];
      assert p in parameters;
      if IsSetting(p) {
        SettingSplits(p);
        ReadAccepts(parameters[1..], SettingValue(p));
      } else {
        OtherSplits(p);
      }
    }
  }

  /** Otherwise the first that is no setting decides: the key alone reads past the end, anything else is unknown. */
  lemma {:induction false} ReadRefuses(parameters: seq<string>, ns: string, k: nat)
    requires k < |parameters| && !IsSetting(parameters[k])
    requires forall i | 0 <= i < k :: IsSetting(parameters[i])
    ensures Read(parameters, ns) == if parameters[k] == KEY then NoValue else Unknown(parameters[k])
  {
    hide Split, IsSetting, KEY, SettingValue;
    if k == 0 {
      OtherSplits(parameters[0]);
    } else {
      SettingSplits(parameters[0]);
      ReadRefuses(parameters[1..], SettingValue(parameters[0]), k - 1);
    }
  }
}
