TestResult.DisplayName,TestResult.Outcome,TestResult.Duration,TestResult.ResourceCount,RandomSeed
DataLoader.SecondTargetOverruns (well-formedness),Passed,00:00:00.4660334,172078,1
DataLoader.SecondTargetOverruns (correctness),Passed,00:00:00.4457126,200097,1
