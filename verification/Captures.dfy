/** The data model of a capture: named digital channels in the order of their dictionary
    (src/slidko/capture). */
module Captures {
  import opened Results

  datatype Channel = Channel(name: string, signal: seq<bool>)

  datatype Capture = Capture(channels: seq<Channel>, sampleRate: int)

  /** `capture.channels[name]`. */
  function SignalOf(channels: seq<Channel>, name: string): Option<seq<bool>> {
    if channels == [] then None
    else if channels[0].name == name then Some(channels[0].signal)
    else SignalOf(channels[1..], name)
  }
}
