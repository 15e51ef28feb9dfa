/** Two clients that the concrete runs are told with. */
module Devices {
  import opened Store

  const PHONE := Pair("02:00:00:00:00:01", "10.10.0.100")
  const TABLET := Pair("02:00:00:00:00:02", "10.10.0.101")
}
