/**
 * The seven data series `compute_math` writes (multidn2gnuplot.py:48-62):
 * the label text that selects each one, the order in which the labels are
 * tested, the suffix of each output file and the lines written to it.
 */
module Series {
  import opened Text

  datatype Metric =
    | Cumulated             // <basename>.cumulated
    | AverageBpHost         // <basename>.average_bp_host
    | AverageBpStream       // <basename>.average_bp_stream
    | AverageCpuHost        // <basename>.average_cpu_host
    | AverageNetworkPerCpu  // <basename>.average_network_per_cpu_percent
    | StddevBetweenHosts    // <basename>.stddev_bp_between_hosts
    | StddevBetweenStreams  // <basename>.stddev_between_streams

  /** The label substring that routes a line to the series. */
  function Key(m: Metric): string {
    match m
    case Cumulated => "Cumulated bandwidth"
    case AverageBpHost => "Average bandwidth / host"
    case AverageBpStream => "Average bandwidth / stream"
    case AverageCpuHost => "Average cpu load / host"
    case AverageNetworkPerCpu => "Average network bandwidth / %cpu"
    case StddevBetweenHosts => "Standard deviation between host"
    case StddevBetweenStreams => "Standard deviation between streams"
  }

  /** The position of the series' test in the `if`/`elif` chain. */
  function Rank(m: Metric): nat {
    match m
    case Cumulated => 0
    case AverageBpHost => 1
    case AverageBpStream => 2
    case AverageCpuHost => 3
    case AverageNetworkPerCpu => 4
    case StddevBetweenHosts => 5
    case StddevBetweenStreams => 6
  }

  /** What `gnuplot_output_filename` is followed by in the series' file name. */
  function Suffix(m: Metric): string {
    match m
    case Cumulated => ".cumulated"
    case AverageBpHost => ".average_bp_host"
    case AverageBpStream => ".average_bp_stream"
    case AverageCpuHost => ".average_cpu_host"
    case AverageNetworkPerCpu => ".average_network_per_cpu_percent"
    case StddevBetweenHosts => ".stddev_bp_between_hosts"
    case StddevBetweenStreams => ".stddev_between_streams"
  }

  /** The first line of every series file: `'%s bandwidth\n' % item_unit`, `cpu_percent` for the CPU series. */
  function Header(m: Metric, unit: string): string {
    unit + (if m == AverageCpuHost then " cpu_percent\n" else " bandwidth\n")
  }

  /** A data row: `'%d %s\n' % (item, value)`. */
  function Row(item: int, value: string): string {
    IntToString(item) + " " + value + "\n"
  }
}
