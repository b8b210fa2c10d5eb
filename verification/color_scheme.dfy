/** The colour-scheme hook: it starts from the device's appearance, then
    applies the stored preference when it loads, and follows later device
    changes only while the stored preference is 'system'. Storage reads are
    inputs carried by the events. */
module ColorScheme {

  /** What the device reports; it may report nothing. */
  datatype Appearance = Light | Dark | NoAppearance

  /** The stored preference. */
  datatype Preference = PrefLight | PrefDark | PrefSystem

  /** What happens to the hook: the stored preference finishes loading
      (`initializeTheme`, with the device appearance of that render), or
      the device appearance changes and the listener reads the stored
      preference. */
  datatype Event = Loaded(stored: Preference, device: Appearance)
                 | DeviceChanged(appearance: Appearance, stored: Preference)

  function FixedOf(p: Preference): Appearance
    requires p != PrefSystem
  {
    if p == PrefLight then Light else Dark
  }

  /** One state update. */
  function Step(scheme: Appearance, e: Event): (r: Appearance)
    ensures e.Loaded? && e.stored == PrefSystem ==> r == e.device
    ensures e.Loaded? && e.stored != PrefSystem ==> r == FixedOf(e.stored)
    ensures e.DeviceChanged? && e.stored == PrefSystem ==> r == e.appearance
    ensures e.DeviceChanged? && e.stored != PrefSystem ==> r == scheme
  {
    match e
    case Loaded(stored, device) => if stored == PrefSystem then device else FixedOf(stored)
    case DeviceChanged(appearance, stored) => if stored == PrefSystem then appearance else scheme
  }

  /** The scheme after a sequence of events, starting from the device's
      appearance at the first render. */
  function Run(device: Appearance, events: seq<Event>): Appearance
    decreases |events|
  {
    if |events| == 0 then device else Step(Run(device, events[..|events| - 1]), events[|events| - 1])
  }

  /** The device's latest reported appearance. */
  function LatestDevice(device: Appearance, events: seq<Event>): Appearance
    decreases |events|
  {
    if |events| == 0 then device
    else
      var e := events[|events| - 1];
      if e.Loaded? then e.device else e.appearance
  }

  predicate AllStored(events: seq<Event>, p: Preference) {
    forall k :: 0 <= k < |events| ==> events[k].stored == p
  }

  predicate SomeLoaded(events: seq<Event>) {
    exists k :: 0 <= k < |events| && events[k].Loaded?
  }

  /** With an unchanging stored preference: 'system' always shows the
      device's latest appearance; 'light' or 'dark' shows the device's
      appearance until the preference loads and the fixed one from then on,
      whatever the device does. */
  lemma {:induction false} RunResolves(device: Appearance, events: seq<Event>, p: Preference)
    requires AllStored(events, p)
    ensures p == PrefSystem ==> Run(device, events) == LatestDevice(device, events)
    ensures p != PrefSystem ==> Run(device, events) == if SomeLoaded(events) then FixedOf(p) else device
    decreases |events|
  {
    if |events| > 0 {
      var init := events[..|events| - 1];
      var e := events[|events| - 1];
      assert AllStored(init, p) by {
        forall k | 0 <= k < |init| ensures init[k].stored == p {
          assert init[k] == events[k];
        }
      }
      RunResolves(device, init, p);
      if p != PrefSystem {
        if e.Loaded? {
          assert SomeLoaded(events);
        } else {
          assert SomeLoaded(events) <==> SomeLoaded(init) by {
            if SomeLoaded(events) {
              var k :| 0 <= k < |events| && events[k].Loaded?;
              assert k < |init| && init[k] == events[k];
            }
            if SomeLoaded(init) {
              var k :| 0 <= k < |init| && init[k].Loaded?;
              assert events[k] == init[k];
            }
          }
        }
      }
    }
  }
}
