/** The integer logic of the GraphHopper command-line script: turning a
    route's duration in milliseconds into hours, minutes and seconds, and
    the decisions `main` takes on the three lines the user types each round
    (origin, destination, transport option) before any request is made. */
module RouteScript {
  import opened PyStr

  datatype Hms = Hms(hours: nat, minutes: nat, seconds: nat)

  /** The number of whole seconds a duration stands for. */
  function TotalSeconds(t: Hms): nat
  {
    t.hours * 3600 + t.minutes * 60 + t.seconds
  }

  /** A clock reading: minutes and seconds below 60. */
  predicate Normal(t: Hms)
  {
    t.minutes < 60 && t.seconds < 60
  }

  /** ms_to_hms: the whole seconds in `ms`, split into hours, minutes below
      60 and seconds below 60. */
  function MsToHms(ms: nat): (r: Hms)
    ensures Normal(r)
    ensures TotalSeconds(r) == ms / 1000
    ensures r.hours == ms / 1000 / 3600
  {
    var totalSec := ms / 1000;
    Hms(totalSec / 3600, totalSec % 3600 / 60, totalSec % 60)
  }

  /** Normal readings are determined by their total: two normal readings
      with the same number of seconds are the same reading. */
  lemma NormalUnique(a: Hms, b: Hms)
    requires Normal(a) && Normal(b) && TotalSeconds(a) == TotalSeconds(b)
    ensures a == b
  {
    var t := TotalSeconds(a);
    assert a.hours == t / 3600 && a.minutes * 60 + a.seconds == t % 3600;
    assert b.hours == t / 3600 && b.minutes * 60 + b.seconds == t % 3600;
    var rest := t % 3600;
    assert a.minutes == rest / 60 && a.seconds == rest % 60;
    assert b.minutes == rest / 60 && b.seconds == rest % 60;
  }

  /** MsToHms gives the one normal reading of `ms / 1000` seconds, and no
      other reading. */
  lemma MsToHmsIff(ms: nat, t: Hms)
    ensures MsToHms(ms) == t <==> Normal(t) && TotalSeconds(t) == ms / 1000
  {
    if Normal(t) && TotalSeconds(t) == ms / 1000 {
      NormalUnique(MsToHms(ms), t);
    }
  }

  /** Read back from a normal reading, plus fewer than 1000 stray
      milliseconds, the split gives that reading again. */
  lemma MsToHmsRoundTrip(t: Hms, extra: nat)
    requires Normal(t) && extra < 1000
    ensures MsToHms(TotalSeconds(t) * 1000 + extra) == t
  {
    var ms := TotalSeconds(t) * 1000 + extra;
    assert ms / 1000 == TotalSeconds(t);
    MsToHmsIff(ms, t);
  }

  /** `line.strip().lower() == "v"`: the test at each of the three prompts
      that ends the loop. */
  predicate IsQuit(line: string)
    ensures IsQuit(line) ==> |Strip(line)| == 1
  {
    Lower(Strip(line)) == "v"
  }

  /** The quit test accepts exactly "v" and "V", with any whitespace around. */
  lemma IsQuitIff(line: string)
    ensures IsQuit(line) <==> Strip(line) == "v" || Strip(line) == "V"
  {
    LowerIsSingle(Strip(line), 'v');
    assert ('v' as int - 32) as char == 'V';
  }

  /** The `vehiculos` dictionary: menu option to GraphHopper profile. */
  const Vehicles: map<string, string> := map["1" := "car", "2" := "bike", "3" := "foot"]

  datatype Choice = Quit | Invalid | Vehicle(profile: string)

  /** The transport prompt on the option once stripped and lowered: "v"
      quits, a key of `vehiculos` picks its profile, anything else is
      refused. */
  function SelectOption(option: string): (c: Choice)
    ensures c.Vehicle? ==> c.profile in Vehicles.Values
  {
    if option == "v" then Quit
    else if option in Vehicles then Vehicle(Vehicles[option])
    else Invalid
  }

  /** The transport prompt on the line as typed. */
  function ChooseVehicle(line: string): (c: Choice)
    ensures c == Quit <==> IsQuit(line)
  {
    SelectOption(Lower(Strip(line)))
  }

  /** On a stripped option, "1", "2" and "3" pick car, bike and foot, and
      they are the only options that pick a vehicle. */
  lemma {:induction false} SelectOptionMapping(s: string)
    ensures s == "1" <==> SelectOption(Lower(s)) == Vehicle("car")
    ensures s == "2" <==> SelectOption(Lower(s)) == Vehicle("bike")
    ensures s == "3" <==> SelectOption(Lower(s)) == Vehicle("foot")
    ensures SelectOption(Lower(s)).Vehicle? <==> s in Vehicles
  {
    LowerIsSingle(s, '1');
    LowerIsSingle(s, '2');
    LowerIsSingle(s, '3');
    LowerIsSingle(s, 'v');
    assert Vehicles.Keys == {"1", "2", "3"};
    assert "car" != "bike" && "car" != "foot" && "bike" != "foot";
  }

  /** Options "1", "2" and "3" (with any whitespace around) pick car, bike
      and foot, and those are the only lines that pick a vehicle. */
  lemma ChooseVehicleMapping(line: string)
    ensures Strip(line) == "1" <==> ChooseVehicle(line) == Vehicle("car")
    ensures Strip(line) == "2" <==> ChooseVehicle(line) == Vehicle("bike")
    ensures Strip(line) == "3" <==> ChooseVehicle(line) == Vehicle("foot")
    ensures ChooseVehicle(line).Vehicle? <==> Strip(line) in Vehicles
  {
    SelectOptionMapping(Strip(line));
  }

  /** What one round of `main`'s loop does once its lines are read: leave
      the loop, ask again, or request a route from the stripped origin to
      the stripped destination with the chosen profile. */
  datatype Round = Exit | Retry | Request(origin: string, destination: string, vehicle: string)

  function PlanRound(originLine: string, destinationLine: string, optionLine: string): (r: Round)
    ensures r.Request? ==> r.origin == Strip(originLine) && r.destination == Strip(destinationLine)
  {
    if IsQuit(originLine) then Exit
    else if IsQuit(destinationLine) then Exit
    else match ChooseVehicle(optionLine)
      case Quit => Exit
      case Invalid => Retry
      case Vehicle(profile) => Request(Strip(originLine), Strip(destinationLine), profile)
  }

  /** A round ends the loop exactly when one of its three lines is "v" or
      "V", and a request is made only for option "1", "2" or "3". */
  lemma PlanRoundDecides(originLine: string, destinationLine: string, optionLine: string)
    ensures PlanRound(originLine, destinationLine, optionLine) == Exit
        <==> IsQuit(originLine) || IsQuit(destinationLine) || IsQuit(optionLine)
    ensures PlanRound(originLine, destinationLine, optionLine).Request?
        <==> !IsQuit(originLine) && !IsQuit(destinationLine) && Strip(optionLine) in Vehicles
    ensures PlanRound(originLine, destinationLine, optionLine).Request? ==>
        PlanRound(originLine, destinationLine, optionLine).vehicle in {"car", "bike", "foot"}
  {
    var c := ChooseVehicle(optionLine);
    ChooseVehicleMapping(optionLine);
    if !IsQuit(originLine) && !IsQuit(destinationLine) {
      assert PlanRound(originLine, destinationLine, optionLine) == match c
        case Quit => Exit
        case Invalid => Retry
        case Vehicle(profile) => Request(Strip(originLine), Strip(destinationLine), profile);
    }
  }
}
