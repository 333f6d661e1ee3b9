/**
 * The two paths the comment above GetFormattedPath gives as examples,
 * worked out through the general lemmas of ConfigSchema.
 */
module ConfigSchemaExamples {
  import opened ConfigSchema

  /** Two dot-free segments under "(root).". */
  lemma TwoSegments(a: string, b: string)
    requires '.' !in a && '.' !in b
    ensures GetFormattedPath("(root)." + a + "." + b) == "/" + a + "/" + b
  {
    var x1 := a + "." + b;
    assert "(root)." + a + "." + b == "(root)." + x1;
    RootedPath(x1);
    SegmentThenDot(a, b);
    ReplaceDotsWithoutDots(b);
  }

  /** Five dot-free segments under "(root).". */
  lemma FiveSegments(a: string, b: string, c: string, d: string, e: string)
    requires '.' !in a && '.' !in b && '.' !in c && '.' !in d && '.' !in e
    ensures GetFormattedPath("(root)." + a + "." + b + "." + c + "." + d + "." + e)
         == "/" + a + "/" + b + "/" + c + "/" + d + "/" + e
  {
    var x4 := d + "." + e;
    var x3 := c + "." + x4;
    var x2 := b + "." + x3;
    var x1 := a + "." + x2;
    assert "(root)." + a + "." + b + "." + c + "." + d + "." + e == "(root)." + x1;
    RootedPath(x1);
    SegmentThenDot(a, x2);
    SegmentThenDot(b, x3);
    SegmentThenDot(c, x4);
    SegmentThenDot(d, e);
    ReplaceDotsWithoutDots(e);
  }

  lemma AgentIntervalText()
    ensures "(root)." + "agent" + "." + "metrics_collection_interval"
         == "(root).agent.metrics_collection_interval"
  {
  }

  lemma AgentIntervalFormattedText()
    ensures "/" + "agent" + "/" + "metrics_collection_interval"
         == "/agent/metrics_collection_interval"
  {
  }

  /** The first example: a top-level key of the agent section. */
  lemma AgentIntervalExample()
    ensures GetFormattedPath("(root).agent.metrics_collection_interval") == "/agent/metrics_collection_interval"
  {
    AgentIntervalText();
    AgentIntervalFormattedText();
    TwoSegments("agent", "metrics_collection_interval");
  }

  lemma CpuResourcesText()
    ensures "(root)." + "metrics" + "." + "metrics_collected" + "." + "cpu" + "." + "resources" + "." + "1"
         == "(root).metrics.metrics_collected.cpu.resources.1"
  {
  }

  lemma CpuResourcesFormattedText()
    ensures "/" + "metrics" + "/" + "metrics_collected" + "/" + "cpu" + "/" + "resources" + "/" + "1"
         == "/metrics/metrics_collected/cpu/resources/1"
  {
  }

  /** The second example: an array element deep in the metrics section. */
  lemma CpuResourcesExample()
    ensures GetFormattedPath("(root).metrics.metrics_collected.cpu.resources.1")
         == "/metrics/metrics_collected/cpu/resources/1"
  {
    CpuResourcesText();
    CpuResourcesFormattedText();
    FiveSegments("metrics", "metrics_collected", "cpu", "resources", "1");
  }
}
